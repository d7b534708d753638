/** Task intervals: when a task type runs next. */
module Intervals {
  import opened Arith
  import opened Calendar
  import opened GoTime
  import opened Wrappers

  datatype IntervalType = Hourly | Daily | Weekly | Monthly | Unknown(name: string)

  datatype TimeOfDay = TimeOfDay(hour: int, minute: int) {
    predicate Valid() {
      0 <= hour <= 23 && 0 <= minute <= 59
    }

    function Clock(): int {
      hour * HOUR + minute * MINUTE
    }
  }

  datatype TaskInterval = TaskInterval(
    kind: IntervalType, value: int, timezone: string, atTime: Option<TimeOfDay>)
  {
    /** What the registry accepts. */
    predicate Valid() {
      !kind.Unknown? && 1 <= value && (atTime.Some? ==> atTime.value.Valid())
    }
  }

  /** Loadable time zones, as fixed offsets; a name that does not load means UTC. */
  type Zones = map<string, Offset>

  function OffsetOf(zones: Zones, timezone: string): Offset {
    if timezone in zones then zones[timezone] else 0
  }

  /** next moved to the given time of its local day, when one is given. */
  function AtTimeOf(offset: Offset, next: int, atTime: Option<TimeOfDay>): int {
    match atTime
    case None => next
    case Some(at) => DateAt(offset, ReadDay(offset, next), at.Clock())
  }

  function NextHourly(value: int, from: int): int {
    var next := Truncate(from, HOUR) + HOUR;
    // time.Duration(Value-1) * time.Hour is an int64 product.
    if 1 < value then next + Wrap64((value - 1) * HOUR) else next
  }

  function NextDaily(value: int, atTime: Option<TimeOfDay>, offset: Offset, from: int): int {
    var midnight := DateAt(offset, ReadDay(offset, from), 0);
    var next := AtTimeOf(offset, AddDateAt(offset, midnight, 0, value), atTime);
    if value == 1 && atTime.Some? then
      var today := DateAt(offset, ReadDay(offset, from), atTime.value.Clock());
      if from < today then today else next
    else next
  }

  function NextWeekly(value: int, atTime: Option<TimeOfDay>, offset: Offset, from: int): int {
    // Truncate(24h) cuts at UTC midnight, AddDate counts local days; 7*Value is an int64 product.
    AtTimeOf(offset, AddDateAt(offset, Truncate(from, DAY), 0, Wrap64(7 * value)), atTime)
  }

  function NextMonthly(value: int, atTime: Option<TimeOfDay>, offset: Offset, from: int): int {
    var moved := AddDateAt(offset, from, value, 0);
    var month := MonthOf(ReadDay(offset, moved));
    var next := DateAt(offset, Date(month, DayOf(ReadDay(offset, from))), 0);
    AtTimeOf(offset, next, atTime)
  }

  function NextExecution(ti: TaskInterval, offset: Offset, from: int): int {
    match ti.kind
    case Hourly => NextHourly(ti.value, from)
    case Daily => NextDaily(ti.value, ti.atTime, offset, from)
    case Weekly => NextWeekly(ti.value, ti.atTime, offset, from)
    case Monthly => NextMonthly(ti.value, ti.atTime, offset, from)
    case Unknown(_) => from + HOUR
  }

  predicate IsDue(ti: TaskInterval, offset: Offset, last: int, now: int) {
    NextExecution(ti, offset, last) <= now
  }

  // ----- where days lead: the wrapped product of seconds -----

  predicate ValidAt(atTime: Option<TimeOfDay>) {
    atTime.Some? ==> atTime.value.Valid()
  }

  function ClockOf(atTime: Option<TimeOfDay>): int {
    if atTime.Some? then atTime.value.Clock() else 0
  }

  /** t plus so many seconds, moved to the given time of its local day when one is given. */
  function Shifted(offset: int, t: int, seconds: int, atTime: Option<TimeOfDay>): int {
    var moved := t + seconds * SECOND;
    if atTime.None? then moved else Instant(offset, LocalDay(offset, moved), ClockOf(atTime))
  }

  /** The seconds that adding so many days amounts to in time.Date. */
  function SecondsOf(days: int): int {
    Wrap64(86400 * days)
  }

  lemma TimeSet(offset: Offset, next: int, moved: int, atTime: Option<TimeOfDay>)
    requires next == Wrapped(moved) && ReadDay(offset, next) == LocalDay(offset, moved)
    ensures AtTimeOf(offset, next, atTime) == Wrapped(Shifted(offset, moved, 0, atTime))
  {
  }

  lemma ShiftLands(offset: Offset, t: int, days: int, atTime: Option<TimeOfDay>)
    requires Readable(offset, t) && Readable(offset, t + SecondsOf(days) * SECOND)
    ensures AtTimeOf(offset, AddDateAt(offset, t, 0, days), atTime)
         == Wrapped(Shifted(offset, t, SecondsOf(days), atTime))
  {
    var next, moved := AddDateAt(offset, t, 0, days), t + SecondsOf(days) * SECOND;
    assert next == Wrapped(moved) by {
      AddDaysMoves(offset, t, days);
      WrappedDays(offset, t, days);
    }
    assert ReadDay(offset, next) == LocalDay(offset, moved) by {
      ReadWrapped(offset, moved);
      ReadingFits(offset, moved);
    }
    TimeSet(offset, next, moved, atTime);
    assert Shifted(offset, moved, 0, atTime) == Shifted(offset, t, SecondsOf(days), atTime);
  }

  /** The wrap of 7*Value is lost in the wrap of the seconds. */
  lemma WeeklySeconds(value: int)
    ensures SecondsOf(Wrap64(7 * value)) == Wrap64(604800 * value)
  {
    var k := WrapTurns(7 * value);
    assert 86400 * Wrap64(7 * value) == 604800 * value + (86400 * k) * TWO_64;
    WrapIgnoresMultiples(604800 * value, 86400 * k);
  }

  /** So many days after any storable instant are still within Go's time. */
  predicate DaysFit(days: int) {
    0 <= days && (days + END_DAY + 5) * 86400 <= MAX_INT64
  }

  /** A storable instant, or the midnight before one. */
  predicate NearStorable(t: int) {
    (FIRST_DAY - 3) * DAY <= t < (END_DAY + 2) * DAY
  }

  lemma DayIsRepresentable(offset: Offset, day: int, clock: int)
    requires FIRST_DAY - 4 <= day && (day + 2) * 86400 <= MAX_INT64 && 0 <= clock < DAY
    ensures Representable(Instant(offset, day, clock)) && Readable(offset, Instant(offset, day, clock))
  {
  }

  lemma DateFits(offset: Offset, day: int, clock: int)
    requires FIRST_DAY - 4 <= day && (day + 2) * 86400 <= MAX_INT64 && 0 <= clock < DAY
    ensures DateAt(offset, day, clock) == Instant(offset, day, clock)
    ensures ReadDay(offset, Instant(offset, day, clock)) == day
    ensures ReadClock(offset, Instant(offset, day, clock)) == clock
  {
    DayIsRepresentable(offset, day, clock);
    WrappedFits(Instant(offset, day, clock));
    ReadingFits(offset, Instant(offset, day, clock));
    InstantParts(offset, day, clock);
  }

  lemma NearDay(offset: Offset, t: int)
    requires NearStorable(t)
    ensures FIRST_DAY - 4 <= LocalDay(offset, t) <= END_DAY + 2
    ensures t == Instant(offset, LocalDay(offset, t), Clock(offset, t)) && 0 <= Clock(offset, t) < DAY
  {
  }

  lemma ShiftFits(offset: Offset, t: int, days: int, atTime: Option<TimeOfDay>)
    requires ValidAt(atTime) && NearStorable(t) && DaysFit(days)
    ensures SecondsOf(days) == 86400 * days && Readable(offset, t)
    ensures Readable(offset, t + 86400 * days * SECOND) && Representable(Shifted(offset, t, 86400 * days, atTime))
  {
    var day, clock := LocalDay(offset, t), Clock(offset, t);
    NearDay(offset, t);
    DayIsRepresentable(offset, day, clock);
    DayIsRepresentable(offset, day + days, clock);
    DayIsRepresentable(offset, day + days, ClockOf(atTime));
    assert Instant(offset, day + days, clock) == t + 86400 * days * SECOND;
    InstantParts(offset, day + days, clock);
  }

  /** Days that fit lead where they should. */
  lemma DaysLand(offset: Offset, t: int, days: int, atTime: Option<TimeOfDay>)
    requires ValidAt(atTime) && NearStorable(t) && DaysFit(days)
    ensures AtTimeOf(offset, AddDateAt(offset, t, 0, days), atTime) == Shifted(offset, t, 86400 * days, atTime)
  {
    ShiftFits(offset, t, days, atTime);
    ShiftLands(offset, t, days, atTime);
    WrappedFits(Shifted(offset, t, 86400 * days, atTime));
  }

  lemma WholeDaysLater(offset: int, t: int, days: int)
    ensures LocalDay(offset, t + days * DAY) == LocalDay(offset, t) + days
    ensures Clock(offset, t + days * DAY) == Clock(offset, t)
  {
  }

  // ----- where each kind lands, without calendar normalisation -----

  function DailyLanding(value: int, atTime: Option<TimeOfDay>, offset: int, from: int): int {
    var today := Instant(offset, LocalDay(offset, from), ClockOf(atTime));
    if value == 1 && atTime.Some? && from < today then today else today + value * DAY
  }

  lemma DailyLands(value: int, atTime: Option<TimeOfDay>, offset: Offset, from: int)
    requires ValidAt(atTime) && Storable(from) && DaysFit(value)
    ensures NextDaily(value, atTime, offset, from) == DailyLanding(value, atTime, offset, from)
  {
    var day := LocalDay(offset, from);
    var midnight := Instant(offset, day, 0);
    StorableReads(offset, from);
    DateFits(offset, day, 0);
    DateFits(offset, day, ClockOf(atTime));
    DaysLand(offset, midnight, value, atTime);
    ShiftedMidnight(offset, day, value, atTime);
  }

  lemma ShiftedMidnight(offset: int, day: int, days: int, atTime: Option<TimeOfDay>)
    ensures Shifted(offset, Instant(offset, day, 0), 86400 * days, atTime)
         == Instant(offset, day + days, ClockOf(atTime))
  {
    assert Instant(offset, day, 0) + 86400 * days * SECOND == Instant(offset, day + days, 0);
    InstantParts(offset, day + days, 0);
  }

  /** The weekly value's days fit. */
  predicate WeeksFit(value: int) {
    1 <= value && DaysFit(7 * value)
  }

  function WeeklyLanding(days: int, atTime: Option<TimeOfDay>, offset: int, from: int): int {
    Shifted(offset, Truncate(from, DAY), 86400 * days, atTime)
  }

  lemma TruncatedStorable(from: int)
    requires Storable(from)
    ensures Storable(Truncate(from, DAY)) && Truncate(from, DAY) % DAY == 0
    ensures Truncate(from, DAY) <= from < Truncate(from, DAY) + DAY
  {
  }

  lemma WeeklyLands(value: int, atTime: Option<TimeOfDay>, offset: Offset, from: int)
    requires ValidAt(atTime) && Storable(from) && WeeksFit(value)
    ensures NextWeekly(value, atTime, offset, from) == WeeklyLanding(7 * value, atTime, offset, from)
  {
    TruncatedStorable(from);
    assert Wrap64(7 * value) == 7 * value;
    DaysLand(offset, Truncate(from, DAY), 7 * value, atTime);
  }

  /** The month a monthly task lands in: the target month if it has the day, else the one after. */
  function LandingMonth(month: int, value: int, dayOfMonth: int): int {
    if dayOfMonth <= DaysIn(month + value) then month + value else month + value + 1
  }

  function LandingDay(day: int, value: int): int {
    Date(LandingMonth(MonthOf(day), value, DayOf(day)), DayOf(day))
  }

  function MonthlyLanding(value: int, atTime: Option<TimeOfDay>, offset: int, from: int): int {
    Instant(offset, LandingDay(LocalDay(offset, from), value), ClockOf(atTime))
  }

  /** Counting a day on from the first of a month it does not have ends in the next month. */
  lemma OverflowMonth(target: int, dayOfMonth: int)
    requires 1 <= dayOfMonth <= 31
    ensures MonthOf(Date(target, dayOfMonth)) == LandingMonth(target, 0, dayOfMonth)
  {
    MonthLength(target);
    if dayOfMonth <= DaysIn(target) {
      CivilUnique(Date(target, dayOfMonth), target, dayOfMonth);
    } else {
      ShortMonthThenLong(target);
      NextMonth(target);
      CivilUnique(Date(target, dayOfMonth), target + 1, dayOfMonth - DaysIn(target));
    }
  }

  /** The largest monthly value that keeps every storable instant within Go's time. */
  const MAX_MONTHLY_VALUE: int := 3_507_324_175_534

  predicate MonthsFit(value: int) {
    1 <= value <= MAX_MONTHLY_VALUE
  }

  /** Go's time ends in December of this year, two days after this one. */
  const LAST_YEAR: int := 292_277_024_627
  const LAST_LANDING: int := 106_751_991_167_298

  lemma LastMonths(year: int)
    requires year == LAST_YEAR
    ensures MonthStart(12 * year + 10) == LAST_LANDING - 33
    ensures MonthStart(12 * year + 11) == LAST_LANDING - 3
    ensures DaysIn(12 * year + 10) == 30 && DaysIn(12 * year + 11) == 31
  {
    ClosedForm(year);
    TwelveMonths(year, 9);
    TwelveMonths(year, 10);
    DaysInYear(year, 10);
    DaysInYear(year, 11);
  }

  /** The civil months of the storable days. */
  lemma StorableMonths(day: int, end: int)
    requires FIRST_DAY - 2 <= day <= END_DAY + 1 && end == 10000
    ensures -1 <= MonthOf(day) <= 12 * end
    ensures MonthOf(day) == 12 * end ==> DayOf(day) <= 2
  {
    ClosedForm(0);
    ClosedForm(end);
    MonthAfter(day, -1);
    MonthBefore(day, 12 * end);
  }

  lemma MonthAfter(day: int, index: int)
    requires MonthStart(index + 1) - 2 <= day
    ensures index <= MonthOf(day)
  {
    var m := MonthOf(day);
    MonthLength(index);
    NextMonth(index);
    if m < index {
      NextMonth(m);
      MonthsAscend(m + 1, index);
    }
  }

  lemma MonthBefore(day: int, index: int)
    requires day <= MonthStart(index) + 1
    ensures MonthOf(day) <= index
  {
    var m := MonthOf(day);
    if index < m {
      MonthLength(index);
      NextMonth(index);
      MonthsAscend(index + 1, m);
    }
  }

  lemma TargetIsInTime(month: int, value: int, day: int, year: int)
    requires -1 <= month <= 120000 && MonthsFit(value) && year == LAST_YEAR
    requires 1 <= day <= 31 && (month == 120000 ==> day <= 2)
    ensures Date(month + value, day) <= LAST_LANDING
    ensures DaysIn(month + value) < day ==> Date(month + value + 1, day) <= LAST_LANDING
  {
    var target, november := month + value, 12 * year + 10;
    LastMonths(year);
    MonthLength(target);
    assert target <= november && (target == november ==> month == 120000);
    MonthsAscend(target, november);
    if target + 1 < november {
      MonthsAscend(target + 2, november);
      MonthLength(target + 1);
      NextMonth(target + 1);
    }
  }

  lemma TargetIsLater(month: int, value: int, day: int)
    requires 1 <= value && 1 <= day <= DaysIn(month)
    ensures Date(month, day) < Date(month + value, day)
    ensures Date(month, day) < Date(month + value + 1, day)
  {
    NextMonth(month);
    MonthsAscend(month + 1, month + value);
    MonthsAscend(month + 1, month + value + 1);
  }

  lemma LandingIsInTime(day: int, value: int)
    requires FIRST_DAY - 2 <= day <= END_DAY + 1 && MonthsFit(value)
    ensures FIRST_DAY - 2 <= LandingDay(day, value) <= LAST_LANDING
    ensures FIRST_DAY - 2 <= Date(MonthOf(day) + value, DayOf(day)) <= LAST_LANDING
  {
    StorableMonths(day, 10000);
    DayOfRange(day);
    TargetIsInTime(MonthOf(day), value, DayOf(day), LAST_YEAR);
    TargetIsLater(MonthOf(day), value, DayOf(day));
  }

  /** The day that Time.AddDate(0, value, 0) counts to: the day of month on from the target's first. */
  function TargetDay(day: int, value: int): int {
    Date(MonthsLater(MonthOf(day), value), DayOf(day))
  }

  lemma MonthsMove(offset: Offset, day: int, clock: int, value: int)
    requires FIRST_DAY - 4 <= day <= END_DAY + 2 && 0 <= clock < DAY
    ensures AddDateAt(offset, Instant(offset, day, clock), value, 0)
         == DateAt(offset, TargetDay(day, value), clock)
  {
    DateFits(offset, day, clock);
  }

  /** A monthly task goes to the month that is read at the target day, whatever wraps. */
  lemma MonthlyReads(value: int, atTime: Option<TimeOfDay>, offset: Offset, day: int, clock: int)
    requires FIRST_DAY - 4 <= day <= END_DAY + 2 && 0 <= clock < DAY
    ensures var month := MonthOf(ReadDay(offset, Instant(offset, TargetDay(day, value), clock)));
            NextMonthly(value, atTime, offset, Instant(offset, day, clock))
            == AtTimeOf(offset, DateAt(offset, Date(month, DayOf(day)), 0), atTime)
  {
    MonthsMove(offset, day, clock, value);
    DateFits(offset, day, clock);
    ReadWrapped(offset, Instant(offset, TargetDay(day, value), clock));
  }

  /** The month of Time.AddDate(0, value, 0). */
  lemma TargetMonth(offset: Offset, day: int, clock: int, value: int)
    requires FIRST_DAY - 2 <= day <= END_DAY + 1 && 0 <= clock < DAY && MonthsFit(value)
    ensures MonthOf(ReadDay(offset, Instant(offset, TargetDay(day, value), clock)))
         == LandingMonth(MonthOf(day), value, DayOf(day))
  {
    MonthsAdd(MonthOf(day), value);
    LandingIsInTime(day, value);
    DateFits(offset, TargetDay(day, value), clock);
    DayOfRange(day);
    OverflowMonth(MonthOf(day) + value, DayOf(day));
  }

  lemma MonthsAdd(index: int, value: int)
    requires MonthsFit(value)
    ensures MonthsLater(index, value) == index + value
  {
  }

  lemma DateThenTime(offset: Offset, day: int, atTime: Option<TimeOfDay>)
    requires FIRST_DAY - 4 <= day && (day + 2) * 86400 <= MAX_INT64 && ValidAt(atTime)
    ensures AtTimeOf(offset, DateAt(offset, day, 0), atTime) == Instant(offset, day, ClockOf(atTime))
  {
    DateFits(offset, day, 0);
    DateFits(offset, day, ClockOf(atTime));
  }

  lemma MonthlyLands(value: int, atTime: Option<TimeOfDay>, offset: Offset, from: int)
    requires ValidAt(atTime) && Storable(from) && MonthsFit(value)
    ensures NextMonthly(value, atTime, offset, from) == MonthlyLanding(value, atTime, offset, from)
  {
    var day, clock := LocalDay(offset, from), Clock(offset, from);
    InstantOfParts(offset, from);
    StorableReads(offset, from);
    TargetMonth(offset, day, clock, value);
    MonthlyReads(value, atTime, offset, day, clock);
    LandingIsInTime(day, value);
    DateThenTime(offset, LandingDay(day, value), atTime);
  }

  /** A monthly task keeps the day of month of from, at its time of day, and lands in the earliest
      month at or after the target one that has this day. */
  lemma MonthlyKeepsDay(value: int, atTime: Option<TimeOfDay>, offset: Offset, from: int)
    requires ValidAt(atTime) && Storable(from) && MonthsFit(value)
    ensures KeepsDay(value, atTime, offset, from, NextMonthly(value, atTime, offset, from))
  {
    MonthlyLands(value, atTime, offset, from);
    LandingKeepsDay(value, atTime, offset, from);
  }

  /** next is on from's day of month, at the time of day, in the earliest month from the target one
      on that has this day. */
  ghost predicate KeepsDay(value: int, atTime: Option<TimeOfDay>, offset: int, from: int, next: int) {
    var today, landed := LocalDay(offset, from), MonthOf(LocalDay(offset, next));
    && DayOf(LocalDay(offset, next)) == DayOf(today)
    && Clock(offset, next) == ClockOf(atTime)
    && MonthOf(today) + value <= landed
    && (forall m :: MonthOf(today) + value <= m < landed ==> DaysIn(m) < DayOf(today))
  }

  lemma LandingKeepsDay(value: int, atTime: Option<TimeOfDay>, offset: int, from: int)
    requires ValidAt(atTime)
    ensures KeepsDay(value, atTime, offset, from, MonthlyLanding(value, atTime, offset, from))
  {
    var today := LocalDay(offset, from);
    var landing := LandingMonth(MonthOf(today), value, DayOf(today));
    LandingFits(today, value);
    InstantParts(offset, Date(landing, DayOf(today)), ClockOf(atTime));
    CivilUnique(Date(landing, DayOf(today)), landing, DayOf(today));
  }

  /** 31 January 2023 is followed by 31 March, and the day after it by 1 March. */
  lemma MonthlyExample(year: int)
    requires year == 2023
    ensures var january := MonthStart(12 * year);
            && NextMonthly(1, None, 0, Instant(0, january + 30, 0)) == Instant(0, january + 89, 0)
            && NextMonthly(1, None, 0, Instant(0, january + 31, 0)) == Instant(0, january + 59, 0)
  {
    var january := MonthStart(12 * year);
    ClosedForm(year);
    MonthlyExampleDays(year);
    MonthlyAtMidnight(january + 30);
    MonthlyAtMidnight(january + 31);
  }

  lemma MonthlyAtMidnight(day: int)
    requires FIRST_DAY <= day < END_DAY
    ensures NextMonthly(1, None, 0, Instant(0, day, 0)) == Instant(0, LandingDay(day, 1), 0)
  {
    InstantParts(0, day, 0);
    MonthlyLands(1, None, 0, Instant(0, day, 0));
  }

  lemma MonthlyExampleDays(year: int)
    requires year == 2023
    ensures var january := MonthStart(12 * year);
            LandingDay(january + 30, 1) == january + 89 && LandingDay(january + 31, 1) == january + 59
  {
    var k := 12 * year;
    assert DaysIn(k) == 31 by { DaysInYear(year, 0); }
    assert DaysIn(k + 1) == 28 by { DaysInYear(year, 1); }
    assert DaysIn(k + 2) == 31 by { DaysInYear(year, 2); }
    NextMonth(k);
    NextMonth(k + 1);
    CivilUnique(MonthStart(k) + 30, k, 31);
    CivilUnique(MonthStart(k) + 31, k + 1, 1);
  }

  predicate Overtaken(day1: int, day2: int, value: int) {
    && MonthOf(day2) == MonthOf(day1) + 1
    && DaysIn(MonthOf(day1) + value) < DayOf(day1)
    && DayOf(day2) < DayOf(day1)
  }

  lemma MonthsAndDaysAscend(day1: int, day2: int)
    requires day1 <= day2
    ensures MonthOf(day1) < MonthOf(day2) || (MonthOf(day1) == MonthOf(day2) && DayOf(day1) <= DayOf(day2))
  {
    var m1, m2 := MonthOf(day1), MonthOf(day2);
    if m2 < m1 {
      NextMonth(m2);
      MonthsAscend(m2 + 1, m1);
    }
  }

  lemma DatesAscend(month1: int, dayOfMonth1: int, month2: int, dayOfMonth2: int)
    requires month1 < month2 && dayOfMonth1 <= DaysIn(month1) && 1 <= dayOfMonth2
    ensures Date(month1, dayOfMonth1) < Date(month2, dayOfMonth2)
  {
    NextMonth(month1);
    MonthsAscend(month1 + 1, month2);
  }

  lemma LandingFits(day: int, value: int)
    ensures 1 <= DayOf(day) <= DaysIn(LandingMonth(MonthOf(day), value, DayOf(day)))
  {
    DayOfRange(day);
    if DaysIn(MonthOf(day) + value) < DayOf(day) {
      ShortMonthThenLong(MonthOf(day) + value);
    }
  }

  lemma LandingOrder(day1: int, day2: int, value: int)
    requires day1 <= day2
    ensures LandingDay(day1, value) <= LandingDay(day2, value) <==> !Overtaken(day1, day2, value)
  {
    var m1, m2, d1, d2 := MonthOf(day1), MonthOf(day2), DayOf(day1), DayOf(day2);
    var l1, l2 := LandingMonth(m1, value, d1), LandingMonth(m2, value, d2);
    MonthsAndDaysAscend(day1, day2);
    LandingFits(day1, value);
    LandingFits(day2, value);
    if l1 < l2 {
      DatesAscend(l1, d1, l2, d2);
    }
    DayOfRange(day2);
    if DaysIn(m1 + value) < d1 {
      ShortMonthThenLong(m1 + value);
    }
  }

  /** Monthly tasks are not monotone in from, and this is exactly when: the later instant is in the
      following month, on a smaller day, and the earlier one's day was missing from its target. */
  lemma MonthlyMonotoneIff(value: int, atTime: Option<TimeOfDay>, offset: Offset, from1: int, from2: int)
    requires ValidAt(atTime) && MonthsFit(value)
    requires Storable(from1) && Storable(from2) && from1 <= from2
    ensures NextMonthly(value, atTime, offset, from1) <= NextMonthly(value, atTime, offset, from2)
            <==> !Overtaken(LocalDay(offset, from1), LocalDay(offset, from2), value)
  {
    MonthlyLands(value, atTime, offset, from1);
    MonthlyLands(value, atTime, offset, from2);
    LocalDayMonotone(offset, from1, from2);
    var day1, day2 := LocalDay(offset, from1), LocalDay(offset, from2);
    LandingOrder(day1, day2, value);
    InstantOrder(offset, LandingDay(day1, value), LandingDay(day2, value), ClockOf(atTime));
  }

  lemma LandingIsLater(day: int, value: int)
    requires 1 <= value
    ensures day < LandingDay(day, value)
  {
    DayOfRange(day);
    LandingFits(day, value);
    DatesAscend(MonthOf(day), DayOf(day), LandingMonth(MonthOf(day), value, DayOf(day)), DayOf(day));
  }

  lemma MonthlyLandingIsLater(value: int, atTime: Option<TimeOfDay>, offset: int, from: int)
    requires 1 <= value && ValidAt(atTime)
    ensures from < MonthlyLanding(value, atTime, offset, from)
  {
    var today := LocalDay(offset, from);
    LandingIsLater(today, value);
    InstantOfParts(offset, from);
    LaterDay(offset, today, Clock(offset, from), LandingDay(today, value), ClockOf(atTime));
  }

  /** Hourly values above this overflow the int64 product. */
  const MAX_HOURLY_VALUE: int := 2_562_048

  lemma HourlyNoWrap(value: int)
    requires 1 <= value <= MAX_HOURLY_VALUE
    ensures Wrap64((value - 1) * HOUR) == (value - 1) * HOUR
  {
  }

  // ----- what each kind promises -----

  /** An hourly task runs at the first full hour that lies more than value - 1 hours ahead. */
  lemma HourlyOnTheHour(value: int, from: int)
    requires 1 <= value <= MAX_HOURLY_VALUE
    ensures var next := NextHourly(value, from);
            next % HOUR == 0 && (value - 1) * HOUR < next - from <= value * HOUR
  {
    HourlyNoWrap(value);
    FullHour(from / HOUR + value);
    assert NextHourly(value, from) == (from / HOUR + value) * HOUR;
  }

  lemma FullHour(hours: int)
    ensures (hours * HOUR) % HOUR == 0
  {
  }

  /** A daily task lands so many local days later, or today when value 1 still finds its time ahead,
      at its time of day or at midnight. */
  lemma DailyLandingDay(value: int, atTime: Option<TimeOfDay>, offset: Offset, from: int)
    requires 1 <= value && ValidAt(atTime) && Storable(from) && DaysFit(value)
    ensures LandsDaily(value, atTime, offset, from, NextDaily(value, atTime, offset, from))
  {
    DailyLands(value, atTime, offset, from);
    DailyLandingLands(value, atTime, offset, from);
  }

  predicate LandsDaily(value: int, atTime: Option<TimeOfDay>, offset: int, from: int, next: int) {
    var clock := if atTime.Some? then (atTime.value.hour * 3600 + atTime.value.minute * 60) * SECOND else 0;
    && Clock(offset, next) == clock
    && LocalDay(offset, next) == LocalDay(offset, from)
                                 + if value == 1 && atTime.Some? && Clock(offset, from) < clock then 0 else value
  }

  lemma DailyLandingLands(value: int, atTime: Option<TimeOfDay>, offset: int, from: int)
    requires 1 <= value && ValidAt(atTime)
    ensures LandsDaily(value, atTime, offset, from, DailyLanding(value, atTime, offset, from))
  {
    var day := LocalDay(offset, from);
    if atTime.Some? {
      ClockMeans(atTime.value);
    }
    InstantOfParts(offset, from);
    InstantParts(offset, day, ClockOf(atTime));
    assert Instant(offset, day, ClockOf(atTime)) + value * DAY == Instant(offset, day + value, ClockOf(atTime));
    InstantParts(offset, day + value, ClockOf(atTime));
  }

  /** The next occurrence of a clock reading after an instant, both given by their parts. */
  lemma LeastOccurrence(offset: int, day: int, clock: int, at: int, other: int)
    requires 0 <= clock < DAY && 0 <= at < DAY
    ensures var from, today := Instant(offset, day, clock), Instant(offset, day, at);
            var next := if from < today then today else today + DAY;
            from < next && (from < Instant(offset, other, at) ==> next <= Instant(offset, other, at))
  {
  }

  lemma ClockMeans(at: TimeOfDay)
    ensures at.Clock() == (at.hour * 3600 + at.minute * 60) * SECOND
  {
  }

  lemma LandingIsLeast(at: TimeOfDay, offset: int, from: int, t: int)
    requires at.Valid()
    ensures var next := DailyLanding(1, Some(at), offset, from);
            && from < next && Clock(offset, next) == at.Clock()
            && (from < t && Clock(offset, t) == at.Clock() ==> next <= t)
  {
    var today := LocalDay(offset, from);
    InstantOfParts(offset, from);
    InstantOfParts(offset, t);
    LeastOccurrence(offset, today, Clock(offset, from), at.Clock(), LocalDay(offset, t));
    InstantParts(offset, today, at.Clock());
    InstantParts(offset, today + 1, at.Clock());
  }

  /** Daily with value 1 and a time of day: the least instant after from at that local time. */
  lemma DailyIsLeast(at: TimeOfDay, offset: Offset, from: int, t: int)
    requires at.Valid() && Storable(from)
    ensures var next := NextDaily(1, Some(at), offset, from);
            && from < next && Clock(offset, next) == at.Clock()
            && (from < t && Clock(offset, t) == at.Clock() ==> next <= t)
  {
    DailyLands(1, Some(at), offset, from);
    LandingIsLeast(at, offset, from, t);
  }

  /** The weekday of a local day, 0 for Monday: day 0 is a Monday. */
  function Weekday(day: int): int {
    day % 7
  }

  /** How many local days before from's the UTC midnight lies at which Truncate(24h) cuts. */
  function CutBack(offset: int, from: int): int {
    if (offset * MINUTE) % DAY <= Clock(offset, from) then 0 else 1
  }

  lemma UtcCutDay(offset: int, from: int)
    ensures LocalDay(offset, Truncate(from, DAY)) == LocalDay(offset, from) - CutBack(offset, from)
    ensures Clock(offset, Truncate(from, DAY)) == (offset * MINUTE) % DAY
  {
    var shift, q := offset * MINUTE, from / DAY;
    var day := q + shift / DAY;
    assert Truncate(from, DAY) == q * DAY;
    assert q * DAY + shift == day * DAY + shift % DAY;
    assert from + shift == day * DAY + (from % DAY + shift % DAY);
  }

  lemma LandingAfterDays(days: int, atTime: Option<TimeOfDay>, offset: int, from: int)
    requires ValidAt(atTime)
    ensures var next := WeeklyLanding(days, atTime, offset, from);
            && LocalDay(offset, next) == LocalDay(offset, from) + days - CutBack(offset, from)
            && Clock(offset, next) == if atTime.Some? then ClockOf(atTime) else (offset * MINUTE) % DAY
  {
    var cut := Truncate(from, DAY);
    UtcCutDay(offset, from);
    WholeDaysLater(offset, cut, days);
    InstantParts(offset, LocalDay(offset, cut + days * DAY), ClockOf(atTime));
  }

  /** Where a weekly task lands whose days fit: so many days after the local day of the UTC cut. */
  lemma WeeklyLandingDay(value: int, atTime: Option<TimeOfDay>, offset: Offset, from: int)
    requires ValidAt(atTime) && Storable(from) && WeeksFit(value)
    ensures var next := NextWeekly(value, atTime, offset, from);
            && LocalDay(offset, next) == LocalDay(offset, from) + 7 * value - CutBack(offset, from)
            && Clock(offset, next) == if atTime.Some? then ClockOf(atTime) else (offset * MINUTE) % DAY
  {
    WeeklyLands(value, atTime, offset, from);
    LandingAfterDays(7 * value, atTime, offset, from);
  }

  lemma WeeksKeepWeekday(day: int, weeks: int, back: int)
    requires 0 <= back <= 1
    ensures Weekday(day + 7 * weeks - back) == Weekday(day) <==> back == 0
  {
  }

  predicate WeekdayKept(value: int, atTime: Option<TimeOfDay>, offset: Offset, from: int) {
    Weekday(ReadDay(offset, NextWeekly(value, atTime, offset, from))) == Weekday(ReadDay(offset, from))
  }

  /** The days a weekly task reads on its landing. */
  lemma WeeklyLandingRead(value: int, atTime: Option<TimeOfDay>, offset: Offset, from: int)
    requires ValidAt(atTime) && Storable(from) && WeeksFit(value)
    ensures ReadDay(offset, NextWeekly(value, atTime, offset, from))
         == LocalDay(offset, from) + 7 * value - CutBack(offset, from)
  {
    var next := NextWeekly(value, atTime, offset, from);
    WeeklyLandingDay(value, atTime, offset, from);
    StorableReads(offset, from);
    InstantOfParts(offset, next);
    DayIsRepresentable(offset, LocalDay(offset, next), Clock(offset, next));
    ReadingFits(offset, next);
  }

  /** The weekday is kept exactly when the local clock has reached the zone's reading of UTC
      midnight. */
  lemma WeekdayKeptIff(value: int, atTime: Option<TimeOfDay>, offset: Offset, from: int)
    requires ValidAt(atTime) && Storable(from) && WeeksFit(value)
    ensures WeekdayKept(value, atTime, offset, from) <==> (offset * MINUTE) % DAY <= Clock(offset, from)
  {
    WeeklyLandingRead(value, atTime, offset, from);
    StorableReads(offset, from);
    WeeksKeepWeekday(LocalDay(offset, from), value, CutBack(offset, from));
  }

  /** A weekly task keeps the weekday from every instant in UTC and in no other zone. */
  lemma WeekdayAlwaysKeptIff(value: int, offset: Offset)
    requires WeeksFit(value)
    ensures (forall atTime, from | ValidAt(atTime) && Storable(from) :: WeekdayKept(value, atTime, offset, from))
       <==> offset == 0
  {
    if offset == 0 {
      forall atTime, from | ValidAt(atTime) && Storable(from) ensures WeekdayKept(value, atTime, offset, from) {
        UtcKeeps(value, atTime, from);
      }
    } else {
      CutShows(value, offset);
    }
  }

  lemma UtcKeeps(value: int, atTime: Option<TimeOfDay>, from: int)
    requires ValidAt(atTime) && Storable(from) && WeeksFit(value)
    ensures WeekdayKept(value, atTime, 0, from)
  {
    InstantOfParts(0, from);
    WeekdayKeptIff(value, atTime, 0, from);
  }

  /** At local midnight in any other zone the cut lies on the day before. */
  lemma CutShows(value: int, offset: Offset)
    requires WeeksFit(value) && offset != 0
    ensures ValidAt(None) && Storable(Instant(offset, 0, 0))
    ensures !WeekdayKept(value, None, offset, Instant(offset, 0, 0))
  {
    InstantParts(offset, 0, 0);
    assert 0 < (offset * MINUTE) % DAY;
    WeekdayKeptIff(value, None, offset, Instant(offset, 0, 0));
  }

  /** In UTC a weekly task lands exactly its weeks later. */
  lemma WeeklyKeepsWeekdayInUtc(value: int, atTime: Option<TimeOfDay>, from: int)
    requires ValidAt(atTime) && Storable(from) && WeeksFit(value)
    ensures WeeksLater(value, atTime, from, NextWeekly(value, atTime, 0, from))
  {
    WeeklyLands(value, atTime, 0, from);
    LandsWeeksLater(value, atTime, from);
  }

  lemma LandsWeeksLater(value: int, atTime: Option<TimeOfDay>, from: int)
    requires ValidAt(atTime)
    ensures WeeksLater(value, atTime, from, WeeklyLanding(7 * value, atTime, 0, from))
  {
    LandingAfterDays(7 * value, atTime, 0, from);
    WeeksKeepWeekday(LocalDay(0, from), value, 0);
  }

  predicate WeeksLater(value: int, atTime: Option<TimeOfDay>, from: int, next: int) {
    && LocalDay(0, next) == LocalDay(0, from) + 7 * value && Weekday(LocalDay(0, next)) == Weekday(LocalDay(0, from))
    && Clock(0, next) == ClockOf(atTime)
  }

  /** A local Tuesday morning in UTC-5 leads to a Monday. */
  lemma WeeklySlipsExample()
    ensures var offset, at := -300, Some(TimeOfDay(9, 0));
            var tuesday := Instant(offset, 1, 9 * HOUR);
            && Weekday(LocalDay(offset, tuesday)) == 1
            && Weekday(LocalDay(offset, NextWeekly(1, at, offset, tuesday))) == 0
  {
    var offset := -300;
    var tuesday := Instant(offset, 1, 9 * HOUR);
    InstantParts(offset, 1, 9 * HOUR);
    assert CutBack(offset, tuesday) == 1 by { assert (offset * MINUTE) % DAY == 19 * HOUR; }
    WeeklyLandingDay(1, Some(TimeOfDay(9, 0)), offset, tuesday);
  }

  // ----- whole seconds -----

  /** Civil fields and whole-minute offsets do not see the part below a second. */
  lemma ReadingInSeconds(offset: Offset, t: int)
    ensures ReadDay(offset, Truncate(t, SECOND)) == ReadDay(offset, t)
    ensures ReadClock(offset, Truncate(t, SECOND)) == Truncate(ReadClock(offset, t), SECOND)
  {
    var seconds := Mod64(t / SECOND + offset * 60 + ABSOLUTE) - ABSOLUTE;
    var whole := Truncate(t, SECOND);
    assert whole / SECOND == t / SECOND && whole % SECOND == 0;
    assert Reading(offset, whole) == seconds * SECOND && Reading(offset, t) == seconds * SECOND + t % SECOND;
    SecondsWithinDay(seconds, t % SECOND);
    SecondsWithinDay(seconds, 0);
  }

  lemma SecondsWithinDay(seconds: int, part: int)
    requires 0 <= part < SECOND
    ensures (seconds * SECOND + part) / DAY == seconds / 86400
    ensures (seconds * SECOND + part) % DAY == seconds % 86400 * SECOND + part
  {
    var day := seconds / 86400;
    assert seconds * SECOND + part == day * DAY + (seconds % 86400 * SECOND + part);
  }

  lemma DateInSeconds(offset: Offset, day: int, clock: int)
    ensures DateAt(offset, day, clock) / SECOND == DateAt(offset, day, Truncate(clock, SECOND)) / SECOND
  {
    var before := day * 86400 - offset * 60;
    SecondsAdd(clock, before);
    SecondsAdd(Truncate(clock, SECOND), before);
    assert Instant(offset, day, clock) == clock + before * SECOND;
    assert Instant(offset, day, Truncate(clock, SECOND)) == Truncate(clock, SECOND) + before * SECOND;
  }

  lemma ComparedInSeconds(from: int, seconds: int)
    ensures from < seconds * SECOND <==> Truncate(from, SECOND) < seconds * SECOND
  {
  }

  /** today is a whole second, so comparing with it does not need the part below. */
  lemma TodayInSeconds(offset: Offset, day: int, at: TimeOfDay, from: int)
    ensures var today := DateAt(offset, day, at.Clock());
            from < today <==> Truncate(from, SECOND) < today
  {
    var seconds := day * 86400 + at.hour * 3600 + at.minute * 60 - offset * 60;
    assert Instant(offset, day, at.Clock()) == 0 + seconds * SECOND;
    SecondsAdd(0, seconds);
    ComparedInSeconds(from, Wrap64(seconds));
  }

  lemma MonthlyInSeconds(value: int, atTime: Option<TimeOfDay>, offset: Offset, from: int)
    ensures NextMonthly(value, atTime, offset, Truncate(from, SECOND)) == NextMonthly(value, atTime, offset, from)
  {
    var whole := Truncate(from, SECOND);
    ReadingInSeconds(offset, from);
    var index := MonthOf(ReadDay(offset, from));
    var target := Date(MonthsLater(index, value), DayOf(ReadDay(offset, from)));
    DateInSeconds(offset, target, ReadClock(offset, from));
    var moved, movedWhole := AddDateAt(offset, from, value, 0), AddDateAt(offset, whole, value, 0);
    assert moved / SECOND == movedWhole / SECOND;
    assert Truncate(moved, SECOND) == Truncate(movedWhole, SECOND);
    ReadingInSeconds(offset, moved);
    ReadingInSeconds(offset, movedWhole);
  }

  lemma WholeSecondsSuffice(ti: TaskInterval, offset: Offset, from: int)
    requires !ti.kind.Unknown?
    ensures NextExecution(ti, offset, Truncate(from, SECOND)) == NextExecution(ti, offset, from)
  {
    WholeSeconds(offset, from);
    ReadingInSeconds(offset, from);
    match ti.kind
    case Hourly =>
    case Daily =>
      if ti.atTime.Some? {
        TodayInSeconds(offset, ReadDay(offset, from), ti.atTime.value, from);
      }
    case Weekly =>
    case Monthly => MonthlyInSeconds(ti.value, ti.atTime, offset, from);
  }

  /** Dropping the sub-second part of the starting instant never changes the next execution exactly
      for the kinds the registry knows; any other is due one hour of 3600 seconds later. */
  lemma WholeSecondsSufficeIff(ti: TaskInterval)
    ensures !ti.kind.Unknown? <==>
            forall offset: Offset, from ::
              NextExecution(ti, offset, Truncate(from, SECOND)) == NextExecution(ti, offset, from)
    ensures ti.kind.Unknown? ==>
              forall offset: Offset, from :: NextExecution(ti, offset, from) - from == 3600 * SECOND
  {
    if ti.kind.Unknown? {
      assert NextExecution(ti, 0, Truncate(1, SECOND)) != NextExecution(ti, 0, 1);
    } else {
      forall offset: Offset, from
        ensures NextExecution(ti, offset, Truncate(from, SECOND)) == NextExecution(ti, offset, from)
      {
        WholeSecondsSuffice(ti, offset, from);
      }
    }
  }
}
