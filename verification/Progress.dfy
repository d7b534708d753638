/** When intervals move forward, and when they keep the order of their starting instants, in the
    64-bit arithmetic of Go's dates: over every storable instant and every zone. */
module Progress {
  import opened Arith
  import opened Calendar
  import opened GoTime
  import opened Intervals
  import opened Wrappers

  /** The last nanosecond of Go's time. */
  const MAX_TIME: int := MAX_INT64 * SECOND + SECOND - 1

  /** Adding days and setting the time of day, as daily and weekly tasks do. */
  function Shift64(offset: Offset, t: int, days: int, atTime: Option<TimeOfDay>): int {
    AtTimeOf(offset, AddDateAt(offset, t, 0, days), atTime)
  }

  lemma ShiftedNear(offset: int, t: int, seconds: int, atTime: Option<TimeOfDay>)
    requires ValidAt(atTime)
    ensures t + seconds * SECOND - DAY < Shifted(offset, t, seconds, atTime) < t + seconds * SECOND + DAY
  {
    var moved := t + seconds * SECOND;
    InstantOfParts(offset, moved);
    LocalDayBounds(offset, moved, ClockOf(atTime));
  }

  lemma LocalDayBounds(offset: int, t: int, clock: int)
    requires 0 <= clock < DAY
    ensures t - DAY < Instant(offset, LocalDay(offset, t), clock) < t + DAY
  {
    InstantOfParts(offset, t);
  }

  /** While the result is within Go's time, it is the one without wrapping. */
  lemma ShiftInTime(offset: Offset, t: int, days: int, atTime: Option<TimeOfDay>)
    requires ValidAt(atTime) && NearStorable(t) && (0 <= SecondsOf(days) || END_DAY * DAY <= t)
    requires Shifted(offset, t, SecondsOf(days), atTime) <= MAX_TIME
    ensures Shift64(offset, t, days, atTime) == Shifted(offset, t, SecondsOf(days), atTime)
  {
    var s := SecondsOf(days);
    var shifted := Shifted(offset, t, s, atTime);
    ShiftedNear(offset, t, s, atTime);
    SecondsAdd(t, s);
    assert t / SECOND + s <= MAX_INT64 + 86400;
    ShiftLands(offset, t, days, atTime);
    assert Representable(shifted);
    WrappedFits(shifted);
  }

  lemma WrapsOnce(t: int)
    requires MAX_TIME < t < TWO_64 * SECOND
    ensures Wrapped(t) == t - TWO_64 * SECOND
  {
    WholeTurns(0, t, -1);
    WrappedFits(t - TWO_64 * SECOND);
  }

  /** A stretch past the last nanosecond that holds whatever starts at a storable instant. */
  predicate JustPast(t: int) {
    MAX_TIME - DAY < t < MAX_TIME + (END_DAY + 3) * DAY
  }

  lemma WrapsFarBack(t: int)
    requires MAX_TIME < t && JustPast(t)
    ensures Wrapped(t) < (FIRST_DAY - 3) * DAY
  {
    WrapsOnce(t);
  }

  lemma UnreadableIsFarBack(offset: Offset, moved: int, clock: int)
    requires JustPast(moved) && !Readable(offset, moved) && 0 <= clock < DAY
    ensures DateAt(offset, ReadDay(offset, moved), clock) < (FIRST_DAY - 3) * DAY
  {
    assert MAX_INT64 - 86401 <= moved / SECOND <= MAX_INT64 + (END_DAY + 3) * 86400;
    ReadPastTheEnd(offset, moved, clock);
  }

  lemma ShiftedJustPast(offset: Offset, t: int, seconds: int, atTime: Option<TimeOfDay>)
    requires ValidAt(atTime) && NearStorable(t) && 0 <= seconds <= MAX_INT64
    requires MAX_TIME < Shifted(offset, t, seconds, atTime)
    ensures JustPast(t + seconds * SECOND) && JustPast(Shifted(offset, t, seconds, atTime))
    ensures atTime.None? ==> MAX_TIME < t + seconds * SECOND
  {
    ShiftedNear(offset, t, seconds, atTime);
  }

  lemma MovedShift(offset: Offset, t: int, days: int)
    requires Readable(offset, t)
    ensures AddDateAt(offset, t, 0, days) == Wrapped(t + SecondsOf(days) * SECOND)
    ensures ReadDay(offset, AddDateAt(offset, t, 0, days)) == ReadDay(offset, t + SecondsOf(days) * SECOND)
  {
    AddDaysMoves(offset, t, days);
    WrappedDays(offset, t, days);
    ReadWrapped(offset, t + SecondsOf(days) * SECOND);
  }

  /** Where an instant just past the end leads, once wrapped and moved to a time of day. */
  lemma PastTheEnd(offset: Offset, next: int, moved: int, atTime: Option<TimeOfDay>)
    requires next == Wrapped(moved) && ReadDay(offset, next) == ReadDay(offset, moved)
    requires ValidAt(atTime) && JustPast(moved) && JustPast(Shifted(offset, moved, 0, atTime))
    requires MAX_TIME < Shifted(offset, moved, 0, atTime)
    ensures AtTimeOf(offset, next, atTime) < (FIRST_DAY - 3) * DAY
  {
    if atTime.None? {
      WrapsFarBack(moved);
    } else if Readable(offset, moved) {
      ReadingFits(offset, moved);
      WrapsFarBack(Shifted(offset, moved, 0, atTime));
    } else {
      UnreadableIsFarBack(offset, moved, ClockOf(atTime));
    }
  }

  /** Beyond it, the wrapped result lies before every storable instant. */
  lemma ShiftPastTheEnd(offset: Offset, t: int, days: int, atTime: Option<TimeOfDay>)
    requires ValidAt(atTime) && NearStorable(t) && 0 <= SecondsOf(days)
    requires MAX_TIME < Shifted(offset, t, SecondsOf(days), atTime)
    ensures Shift64(offset, t, days, atTime) < (FIRST_DAY - 3) * DAY
  {
    ShiftedJustPast(offset, t, SecondsOf(days), atTime);
    NearReads(offset, t);
    MovedShift(offset, t, days);
    PastTheEnd(offset, AddDateAt(offset, t, 0, days), t + SecondsOf(days) * SECOND, atTime);
  }

  lemma NearReads(offset: Offset, t: int)
    requires NearStorable(t)
    ensures Readable(offset, t)
  {
  }

  /** Past the last readable instant the civil date starts over at the absolute zero year. */
  lemma ReadPastTheEnd(offset: Offset, moved: int, clock: int)
    requires TWO_64 <= moved / SECOND + offset * 60 + ABSOLUTE < TWO_64 + ABSOLUTE / 2 && 0 <= clock < DAY
    ensures DateAt(offset, ReadDay(offset, moved), clock) < (FIRST_DAY - 3) * DAY
  {
    var reading := Reading(offset, moved);
    ModIgnoresMultiples(moved / SECOND + offset * 60 + ABSOLUTE, -1);
    assert reading == moved + offset * MINUTE - TWO_64 * SECOND;
    var t := Instant(offset, reading / DAY, clock);
    LocalDayBounds(0, reading, clock);
    assert reading - DAY - offset * MINUTE < t < reading + DAY - offset * MINUTE;
    WrappedFits(t);
  }

  // ----- hourly -----

  /** Hourly tasks move forward from every instant exactly when the int64 product is not negative. */
  lemma HourlyProgressIff(value: int)
    requires 1 <= value
    ensures (forall from :: from < NextHourly(value, from)) <==> 0 <= Wrap64((value - 1) * HOUR)
  {
    if Wrap64((value - 1) * HOUR) < 0 {
      assert NextHourly(value, HOUR - 1) <= HOUR - 1;
    }
  }

  // ----- daily -----

  /** How far past local midnight so many seconds lead. */
  function Ahead(seconds: int, atTime: Option<TimeOfDay>): int {
    if atTime.None? then seconds * SECOND else seconds * SECOND / DAY * DAY + ClockOf(atTime)
  }

  lemma ShiftedFromMidnight(offset: int, day: int, seconds: int, atTime: Option<TimeOfDay>)
    ensures Shifted(offset, Instant(offset, day, 0), seconds, atTime) == Instant(offset, day, Ahead(seconds, atTime))
  {
    var days, rest := seconds * SECOND / DAY, seconds * SECOND % DAY;
    assert seconds * SECOND == days * DAY + rest;
    assert Instant(offset, day, 0) + seconds * SECOND == Instant(offset, day + days, rest);
    InstantParts(offset, day + days, rest);
  }

  lemma DailyAsShift(value: int, atTime: Option<TimeOfDay>, offset: Offset, from: int)
    requires ValidAt(atTime) && Storable(from)
    ensures var day := LocalDay(offset, from);
            var today := Instant(offset, day, ClockOf(atTime));
            NextDaily(value, atTime, offset, from)
            == if value == 1 && atTime.Some? && from < today then today
               else Shift64(offset, Instant(offset, day, 0), value, atTime)
  {
    StorableReads(offset, from);
    DateFits(offset, LocalDay(offset, from), 0);
    DateFits(offset, LocalDay(offset, from), ClockOf(atTime));
  }

  predicate DailyForward(seconds: int) {
    86400 <= seconds
  }

  predicate DailyStays(seconds: int, atTime: Option<TimeOfDay>) {
    (END_DAY + 1) * DAY - MINUTE + Ahead(seconds, atTime) <= MAX_TIME
  }

  /** Midnights are whole minutes, so the last storable one is a minute before the end. */
  lemma LastMidnight(offset: Offset, from: int)
    requires Storable(from)
    ensures var midnight := Instant(offset, LocalDay(offset, from), 0);
            && midnight <= from < midnight + DAY && midnight <= (END_DAY + 1) * DAY - MINUTE
            && NearStorable(midnight)
  {
    var day := LocalDay(offset, from);
    InstantOfParts(offset, from);
    assert Instant(offset, day, 0) == (day * 1440 - offset) * MINUTE;
  }

  /** Where a daily task lands that moves forward and stays in time. */
  function DailyGoal(value: int, seconds: int, atTime: Option<TimeOfDay>, offset: int, from: int): int {
    var day := LocalDay(offset, from);
    var today := Instant(offset, day, ClockOf(atTime));
    if value == 1 && atTime.Some? && from < today then today else Instant(offset, day, Ahead(seconds, atTime))
  }

  lemma DailyInTime(value: int, atTime: Option<TimeOfDay>, offset: Offset, from: int)
    requires ValidAt(atTime) && Storable(from)
    requires DailyForward(SecondsOf(value)) && DailyStays(SecondsOf(value), atTime)
    ensures NextDaily(value, atTime, offset, from) == DailyGoal(value, SecondsOf(value), atTime, offset, from)
  {
    var day := LocalDay(offset, from);
    LastMidnight(offset, from);
    DailyAsShift(value, atTime, offset, from);
    ShiftedFromMidnight(offset, day, SecondsOf(value), atTime);
    ShiftInTime(offset, Instant(offset, day, 0), value, atTime);
  }

  lemma AheadOfDay(seconds: int, atTime: Option<TimeOfDay>)
    requires ValidAt(atTime)
    ensures DailyForward(seconds) <==> DAY <= Ahead(seconds, atTime)
    ensures seconds < 86400 ==> Ahead(seconds, atTime) <= DAY - SECOND
    ensures Ahead(seconds, atTime) < seconds * SECOND + DAY
  {
    var days := seconds * SECOND / DAY;
    assert days * DAY <= seconds * SECOND < days * DAY + DAY;
    assert ClockOf(atTime) <= DAY - MINUTE;
  }

  lemma DailyProgress(value: int, atTime: Option<TimeOfDay>, offset: Offset, from: int)
    requires ValidAt(atTime) && Storable(from)
    requires DailyForward(SecondsOf(value)) && DailyStays(SecondsOf(value), atTime)
    ensures from < NextDaily(value, atTime, offset, from)
  {
    DailyInTime(value, atTime, offset, from);
    AheadOfDay(SecondsOf(value), atTime);
    LastMidnight(offset, from);
  }

  lemma DailyStalls(value: int, atTime: Option<TimeOfDay>)
    requires ValidAt(atTime) && !DailyForward(SecondsOf(value))
    ensures Storable((END_DAY + 1) * DAY - 1)
    ensures NextDaily(value, atTime, 0, (END_DAY + 1) * DAY - 1) <= (END_DAY + 1) * DAY - 1
  {
    var from := (END_DAY + 1) * DAY - 1;
    assert LocalDay(0, from) == END_DAY;
    assert value != 1;
    DailyAsShift(value, atTime, 0, from);
    AheadOfDay(SecondsOf(value), atTime);
    ShiftedFromMidnight(0, END_DAY, SecondsOf(value), atTime);
    ShiftInTime(0, Instant(0, END_DAY, 0), value, atTime);
  }

  lemma OneDayStays(atTime: Option<TimeOfDay>)
    requires ValidAt(atTime)
    ensures SecondsOf(1) == 86400 && DailyForward(SecondsOf(1)) && DailyStays(SecondsOf(1), atTime)
  {
    AheadOfDay(86400, atTime);
  }

  lemma DailyFromMidnight(value: int, atTime: Option<TimeOfDay>, offset: Offset, day: int)
    requires ValidAt(atTime) && value != 1 && Storable(Instant(offset, day, 0))
    ensures NextDaily(value, atTime, offset, Instant(offset, day, 0))
         == Shift64(offset, Instant(offset, day, 0), value, atTime)
  {
    InstantParts(offset, day, 0);
    DailyAsShift(value, atTime, offset, Instant(offset, day, 0));
  }

  /** From the last midnight a daily task that does not stay in time lands before everything. */
  lemma DailyWraps(value: int, atTime: Option<TimeOfDay>)
    requires ValidAt(atTime) && DailyForward(SecondsOf(value)) && !DailyStays(SecondsOf(value), atTime)
    ensures Storable(Instant(1, END_DAY + 1, 0))
    ensures NextDaily(value, atTime, 1, Instant(1, END_DAY + 1, 0)) < (FIRST_DAY - 3) * DAY
  {
    OneDayStays(atTime);
    DailyFromMidnight(value, atTime, 1, END_DAY + 1);
    ShiftedFromMidnight(1, END_DAY + 1, SecondsOf(value), atTime);
    ShiftPastTheEnd(1, Instant(1, END_DAY + 1, 0), value, atTime);
  }

  // ----- weekly -----

  function WeeksInSeconds(value: int): int {
    SecondsOf(Wrap64(7 * value))
  }

  /** So many seconds, in whole minutes and then to the time of day. */
  function ToTheMinute(seconds: int, atTime: Option<TimeOfDay>): int {
    if atTime.None? then seconds * SECOND else seconds / 60 * MINUTE + ClockOf(atTime)
  }

  /** Past UTC midnight by a day, or by what the worst zone takes away from it. */
  predicate WeeklyForward(seconds: int, atTime: Option<TimeOfDay>) {
    if atTime.None? then 86400 <= seconds else DAY + (DAY - MINUTE) <= ToTheMinute(seconds, atTime)
  }

  predicate WeeklyStays(seconds: int, atTime: Option<TimeOfDay>) {
    END_DAY * DAY + ToTheMinute(seconds, atTime) <= MAX_TIME
  }

  /** From a UTC midnight, setting the time of day takes back the local clock: some minutes of a day. */
  lemma TakenBack(offset: Offset, midnight: int, seconds: int, atTime: Option<TimeOfDay>)
    returns (minutes: int)
    requires midnight % DAY == 0 && atTime.Some?
    ensures 0 <= minutes < 1440
    ensures minutes == (seconds / 60 + offset) % 1440
    ensures Shifted(offset, midnight, seconds, atTime)
         == midnight + ToTheMinute(seconds, atTime) - minutes * MINUTE
  {
    minutes := (seconds / 60 + offset) % 1440;
    var days := midnight / DAY + (seconds / 60 + offset) / 1440;
    var moved, rest := midnight + seconds * SECOND, minutes * MINUTE + seconds % 60 * SECOND;
    assert seconds == seconds / 60 * 60 + seconds % 60;
    assert seconds / 60 + offset == (seconds / 60 + offset) / 1440 * 1440 + minutes;
    assert moved == Instant(offset, days, rest);
    InstantParts(offset, days, rest);
  }

  lemma ShiftedWeeks(seconds: int, atTime: Option<TimeOfDay>, offset: Offset, cut: int)
    requires WeeklyForward(seconds, atTime) && WeeklyStays(seconds, atTime)
    requires cut % DAY == 0 && cut <= END_DAY * DAY
    ensures cut + DAY <= Shifted(offset, cut, seconds, atTime) <= MAX_TIME
  {
    if atTime.Some? {
      var minutes := TakenBack(offset, cut, seconds, atTime);
    }
  }

  lemma ForwardIsPositive(seconds: int, atTime: Option<TimeOfDay>)
    requires ValidAt(atTime) && WeeklyForward(seconds, atTime)
    ensures 0 <= seconds
  {
  }

  lemma WeeklyInTime(value: int, atTime: Option<TimeOfDay>, offset: Offset, from: int)
    requires ValidAt(atTime) && Storable(from)
    requires WeeklyForward(WeeksInSeconds(value), atTime) && WeeklyStays(WeeksInSeconds(value), atTime)
    ensures NextWeekly(value, atTime, offset, from)
         == Shifted(offset, Truncate(from, DAY), WeeksInSeconds(value), atTime)
    ensures Truncate(from, DAY) + DAY <= NextWeekly(value, atTime, offset, from)
  {
    TruncatedStorable(from);
    ForwardIsPositive(WeeksInSeconds(value), atTime);
    ShiftedWeeks(WeeksInSeconds(value), atTime, offset, Truncate(from, DAY));
    ShiftInTime(offset, Truncate(from, DAY), Wrap64(7 * value), atTime);
  }

  lemma WeeklyProgress(value: int, atTime: Option<TimeOfDay>, offset: Offset, from: int)
    requires ValidAt(atTime) && Storable(from)
    requires WeeklyForward(WeeksInSeconds(value), atTime) && WeeklyStays(WeeksInSeconds(value), atTime)
    ensures from < NextWeekly(value, atTime, offset, from)
  {
    WeeklyInTime(value, atTime, offset, from);
    TruncatedStorable(from);
  }

  /** The zone in which so many minutes are taken back. */
  function ZoneTaking(seconds: int, minutes: int): Offset {
    (minutes - seconds / 60) % 1440
  }

  lemma ZoneTakes(midnight: int, seconds: int, atTime: Option<TimeOfDay>, minutes: int)
    requires midnight % DAY == 0 && atTime.Some? && 0 <= minutes < 1440
    ensures Shifted(ZoneTaking(seconds, minutes), midnight, seconds, atTime)
         == midnight + ToTheMinute(seconds, atTime) - minutes * MINUTE
  {
    var taken := TakenBack(ZoneTaking(seconds, minutes), midnight, seconds, atTime);
    assert (seconds / 60 + (minutes - seconds / 60) % 1440) % 1440 == minutes;
  }

  lemma WeeklyStalls(value: int, atTime: Option<TimeOfDay>)
    requires ValidAt(atTime) && !WeeklyForward(WeeksInSeconds(value), atTime)
    ensures Storable((END_DAY + 1) * DAY - 1)
    ensures NextWeekly(value, atTime, ZoneTaking(WeeksInSeconds(value), 1439), (END_DAY + 1) * DAY - 1)
         <= (END_DAY + 1) * DAY - 1
  {
    var from, cut, s := (END_DAY + 1) * DAY - 1, END_DAY * DAY, WeeksInSeconds(value);
    assert Truncate(from, DAY) == cut;
    if atTime.Some? {
      ZoneTakes(cut, s, atTime, 1439);
    }
    ShiftInTime(ZoneTaking(s, 1439), cut, Wrap64(7 * value), atTime);
  }

  lemma WeeklyWraps(value: int, atTime: Option<TimeOfDay>)
    requires ValidAt(atTime)
    requires WeeklyForward(WeeksInSeconds(value), atTime) && !WeeklyStays(WeeksInSeconds(value), atTime)
    ensures NextWeekly(value, atTime, ZoneTaking(WeeksInSeconds(value), 0), END_DAY * DAY) < (FIRST_DAY - 3) * DAY
  {
    var cut, s := END_DAY * DAY, WeeksInSeconds(value);
    assert Truncate(cut, DAY) == cut;
    if atTime.Some? {
      ZoneTakes(cut, s, atTime, 0);
    }
    ShiftPastTheEnd(ZoneTaking(s, 0), cut, Wrap64(7 * value), atTime);
  }

  // ----- monthly -----

  /** Up to this value the product of a monthly task's days wraps at most once. */
  const MONTHS_WITHIN_TWO_TURNS: int := 6_800_000_000_000

  /** The absolute zero year begins with a month. */
  lemma AbsoluteMonth(year: int)
    requires year == -292_277_022_399
    ensures MonthStart(12 * year) * 86400 == -ABSOLUTE
  {
    ClosedForm(year);
  }

  lemma AfterTheEnd(year: int)
    requires year == LAST_YEAR + 1
    ensures MonthStart(12 * year) == LAST_LANDING + 28
  {
    ClosedForm(year);
  }

  /** A monthly task that goes to a date beyond Go's time. */
  lemma MonthlyBeyond(value: int, atTime: Option<TimeOfDay>, day: int, month: int)
    requires ValidAt(atTime) && FIRST_DAY <= day <= END_DAY
    requires MonthOf(ReadDay(0, Instant(0, TargetDay(day, value), 0))) == month
    requires LAST_LANDING + 3 < Date(month, DayOf(day)) && Date(month, DayOf(day)) * 86400 + ABSOLUTE < TWO_64
    ensures NextMonthly(value, atTime, 0, Instant(0, day, 0)) < (FIRST_DAY - 3) * DAY
  {
    MonthlyReads(value, atTime, 0, day, 0);
    WrappedDate(Date(month, DayOf(day)), atTime);
  }

  /** 31 December 9999 is the first day to fall out of Go's time. */
  lemma LastDecemberWraps(value: int, atTime: Option<TimeOfDay>, day: int, november: int)
    requires ValidAt(atTime) && value == MAX_MONTHLY_VALUE + 1 && day == END_DAY - 1
    requires november == 12 * LAST_YEAR + 10
    ensures NextMonthly(value, atTime, 0, Instant(0, day, 0)) < (FIRST_DAY - 3) * DAY
  {
    DecemberTarget(value, day, november);
    LastDays(november);
    MonthlyBeyond(value, atTime, day, november + 1);
  }

  lemma DecemberTarget(value: int, day: int, november: int)
    requires value == MAX_MONTHLY_VALUE + 1 && day == END_DAY - 1 && november == 12 * LAST_YEAR + 10
    ensures TargetDay(day, value) == Date(november, 31) && DayOf(day) == 31
  {
    LastDecember(day + 1, 10000);
    assert MonthsLater(119999, value) == november;
  }

  lemma LastDays(november: int)
    requires november == 12 * LAST_YEAR + 10
    ensures MonthOf(ReadDay(0, Instant(0, Date(november, 31), 0))) == november + 1
    ensures Date(november + 1, 31) == LAST_LANDING + 27
  {
    LastMonths(november / 12);
    DateFits(0, Date(november, 31), 0);
    CivilUnique(Date(november, 31), november + 1, 1);
  }

  lemma LastDecember(day: int, end: int)
    requires end == 10000 && day == END_DAY
    ensures MonthOf(day - 1) == 119999 && DayOf(day - 1) == 31
    ensures MonthOf(day) == 120000 && DayOf(day) == 1
  {
    ClosedForm(end);
    NextMonth(12 * end - 1);
    DaysInYear(end - 1, 11);
    DaysInYear(end, 0);
    CivilUnique(day - 1, 12 * end - 1, 31);
    CivilUnique(day, 12 * end, 1);
  }

  /** A date beyond Go's time, then the time of day: both wrap once. */
  lemma WrappedDate(day: int, atTime: Option<TimeOfDay>)
    requires ValidAt(atTime) && LAST_LANDING + 3 < day && day * 86400 + ABSOLUTE < TWO_64
    ensures AtTimeOf(0, DateAt(0, day, 0), atTime) < (FIRST_DAY - 3) * DAY
  {
    InstantParts(0, day, 0);
    ReadWrapped(0, Instant(0, day, 0));
    ReadingFits(0, Instant(0, day, 0));
    WrapsOnce(Instant(0, day, 0));
    WrapsOnce(Instant(0, day, ClockOf(atTime)));
  }

  /** A readable date before every storable one stays what it is. */
  lemma EarlyDate(day: int, atTime: Option<TimeOfDay>)
    requires ValidAt(atTime) && -ABSOLUTE <= day * 86400 && day < FIRST_DAY - 4
    ensures AtTimeOf(0, DateAt(0, day, 0), atTime) < (FIRST_DAY - 3) * DAY
  {
    InstantParts(0, day, 0);
    WrappedFits(Instant(0, day, 0));
    ReadingFits(0, Instant(0, day, 0));
    WrappedFits(Instant(0, day, ClockOf(atTime)));
  }

  lemma {:induction false} MonthsAtMost31(a: int, b: int)
    requires a <= b
    ensures MonthStart(b) <= MonthStart(a) + 31 * (b - a)
    decreases b - a
  {
    if a < b {
      NextMonth(b - 1);
      MonthLength(b - 1);
      MonthsAtMost31(a, b - 1);
    }
  }

  /** The month in which a day past the end reads, after the turn to the absolute zero year. */
  lemma MonthPastTheEnd(day: int, year: int)
    requires TWO_64 <= day * 86400 + ABSOLUTE && day * 86400 < TWO_64 - 86400 * 400
    requires year == -292_277_022_399
    ensures var month := MonthOf(ReadDay(0, Instant(0, day, 0)));
            -ABSOLUTE <= MonthStart(month) * 86400 && MonthStart(month) < FIRST_DAY - 4
  {
    var t := Instant(0, day, 0);
    assert t == 0 + day * 86400 * SECOND;
    SecondsAdd(0, day * 86400);
    ModIgnoresMultiples(day * 86400 + ABSOLUTE, -1);
    var read := ReadDay(0, t);
    assert Reading(0, t) == (day * 86400 - TWO_64) * SECOND;
    assert -ABSOLUTE <= read * 86400 + 86399 && read < FIRST_DAY - 4;
    AbsoluteMonth(year);
    assert MonthStart(12 * year) <= read;
    MonthNotBefore(read, 12 * year);
  }

  lemma MonthNotBefore(day: int, index: int)
    requires MonthStart(index) <= day
    ensures MonthStart(index) <= MonthStart(MonthOf(day)) <= day
  {
    var m := MonthOf(day);
    if m < index {
      NextMonth(m);
      MonthsAscend(m + 1, index);
    } else {
      MonthsAscend(index, m);
    }
  }

  lemma FirstReads(month: int)
    requires 0 <= MonthStart(month) && MonthStart(month) * 86400 + ABSOLUTE < TWO_64
    ensures MonthOf(ReadDay(0, Instant(0, MonthStart(month), 0))) == month
  {
    ReadingFits(0, Instant(0, MonthStart(month), 0));
    InstantParts(0, MonthStart(month), 0);
    MonthLength(month);
    CivilUnique(MonthStart(month), month, 1);
  }

  /** A monthly task that reads back at the beginning of Go's time. */
  lemma MonthlyBeginning(value: int, atTime: Option<TimeOfDay>, day: int, month: int)
    requires ValidAt(atTime) && FIRST_DAY <= day <= END_DAY && DayOf(day) == 1
    requires MonthOf(ReadDay(0, Instant(0, TargetDay(day, value), 0))) == month
    requires -ABSOLUTE <= MonthStart(month) * 86400 && MonthStart(month) < FIRST_DAY - 4
    ensures NextMonthly(value, atTime, 0, Instant(0, day, 0)) < (FIRST_DAY - 3) * DAY
  {
    MonthlyReads(value, atTime, 0, day, 0);
    EarlyDate(MonthStart(month), atTime);
  }

  /** For larger values 1 January 10000 falls out of it. */
  lemma FirstOfJanuaryWraps(value: int, atTime: Option<TimeOfDay>, january: int)
    requires ValidAt(atTime) && MAX_MONTHLY_VALUE + 1 < value <= MONTHS_WITHIN_TWO_TURNS && january == END_DAY
    ensures NextMonthly(value, atTime, 0, Instant(0, january, 0)) < (FIRST_DAY - 3) * DAY
  {
    var day := MonthStart(120000 + value);
    LastDecember(january, 10000);
    assert TargetDay(january, value) == day by { assert MonthsLater(120000, value) == 120000 + value; }
    JanuaryDay(value);
    if day * 86400 + ABSOLUTE < TWO_64 {
      FirstReads(120000 + value);
      MonthlyBeyond(value, atTime, january, 120000 + value);
    } else {
      MonthPastTheEnd(day, -292_277_022_399);
      MonthlyBeginning(value, atTime, january, MonthOf(ReadDay(0, Instant(0, day, 0))));
    }
  }

  lemma JanuaryDay(value: int)
    requires MAX_MONTHLY_VALUE + 1 < value <= MONTHS_WITHIN_TWO_TURNS
    ensures LAST_LANDING + 28 <= MonthStart(120000 + value)
    ensures MonthStart(120000 + value) * 86400 < TWO_64 - 86400 * 400
  {
    AfterTheEnd(LAST_YEAR + 1);
    MonthsAscend(12 * (LAST_YEAR + 1), 120000 + value);
    MonthsAtMost31(120000, 120000 + value);
    ClosedForm(10000);
  }

  lemma MonthlyProgress(value: int, atTime: Option<TimeOfDay>, offset: Offset, from: int)
    requires ValidAt(atTime) && Storable(from) && MonthsFit(value)
    ensures from < NextMonthly(value, atTime, offset, from)
  {
    MonthlyLands(value, atTime, offset, from);
    MonthlyLandingIsLater(value, atTime, offset, from);
  }

  // ----- all kinds -----

  /** The wrapped product, of hours in nanoseconds or of days in seconds, leads forward. */
  predicate MovesForward(ti: TaskInterval) {
    match ti.kind
    case Hourly => 0 <= Wrap64((ti.value - 1) * HOUR)
    case Daily => DailyForward(SecondsOf(ti.value))
    case Weekly => WeeklyForward(WeeksInSeconds(ti.value), ti.atTime)
    case _ => true
  }

  /** From the last storable instant it does not lead out of Go's time. */
  predicate StaysInTime(ti: TaskInterval) {
    match ti.kind
    case Daily => DailyStays(SecondsOf(ti.value), ti.atTime)
    case Weekly => WeeklyStays(WeeksInSeconds(ti.value), ti.atTime)
    case Monthly => ti.value <= MAX_MONTHLY_VALUE
    case _ => true
  }

  lemma KeepsMoving(ti: TaskInterval, offset: Offset, from: int)
    requires ti.Valid() && MovesForward(ti) && StaysInTime(ti) && Storable(from)
    ensures from < NextExecution(ti, offset, from)
  {
    match ti.kind
    case Hourly =>
    case Daily => DailyProgress(ti.value, ti.atTime, offset, from);
    case Weekly => WeeklyProgress(ti.value, ti.atTime, offset, from);
    case Monthly => MonthlyProgress(ti.value, ti.atTime, offset, from);
  }

  lemma DailyCounterexample(value: int, atTime: Option<TimeOfDay>) returns (offset: Offset, from: int)
    requires ValidAt(atTime) && !(DailyForward(SecondsOf(value)) && DailyStays(SecondsOf(value), atTime))
    ensures Storable(from) && NextDaily(value, atTime, offset, from) <= from
  {
    if DailyForward(SecondsOf(value)) {
      offset, from := 1, Instant(1, END_DAY + 1, 0);
      DailyWraps(value, atTime);
    } else {
      offset, from := 0, (END_DAY + 1) * DAY - 1;
      DailyStalls(value, atTime);
    }
  }

  lemma WeeklyCounterexample(value: int, atTime: Option<TimeOfDay>) returns (offset: Offset, from: int)
    requires ValidAt(atTime)
    requires !(WeeklyForward(WeeksInSeconds(value), atTime) && WeeklyStays(WeeksInSeconds(value), atTime))
    ensures Storable(from) && NextWeekly(value, atTime, offset, from) <= from
  {
    var s := WeeksInSeconds(value);
    if WeeklyForward(s, atTime) {
      offset, from := ZoneTaking(s, 0), END_DAY * DAY;
      WeeklyWraps(value, atTime);
    } else {
      offset, from := ZoneTaking(s, 1439), (END_DAY + 1) * DAY - 1;
      WeeklyStalls(value, atTime);
    }
  }

  lemma MidnightStorable(day: int)
    requires FIRST_DAY <= day <= END_DAY
    ensures Storable(Instant(0, day, 0))
  {
  }

  lemma MonthlyCounterexample(value: int, atTime: Option<TimeOfDay>, january: int) returns (from: int)
    requires ValidAt(atTime) && january == END_DAY && MAX_MONTHLY_VALUE < value <= MONTHS_WITHIN_TWO_TURNS
    ensures Storable(from) && NextMonthly(value, atTime, 0, from) < (FIRST_DAY - 3) * DAY
  {
    var day := if value == MAX_MONTHLY_VALUE + 1 then january - 1 else january;
    MidnightStorable(day);
    from := Instant(0, day, 0);
    if value == MAX_MONTHLY_VALUE + 1 {
      LastDecemberWraps(value, atTime, day, 12 * LAST_YEAR + 10);
    } else {
      FirstOfJanuaryWraps(value, atTime, day);
    }
  }

  /** Otherwise some storable instant in some zone gets a next execution that is not later. */
  lemma Stalls(ti: TaskInterval) returns (offset: Offset, from: int)
    requires ti.Valid() && !(MovesForward(ti) && StaysInTime(ti))
    requires ti.kind.Monthly? ==> ti.value <= MONTHS_WITHIN_TWO_TURNS
    ensures Storable(from) && NextExecution(ti, offset, from) <= from
  {
    match ti.kind
    case Hourly => offset, from := 0, HOUR - 1;
    case Daily => offset, from := DailyCounterexample(ti.value, ti.atTime);
    case Weekly => offset, from := WeeklyCounterexample(ti.value, ti.atTime);
    case Monthly =>
      offset := 0;
      from := MonthlyCounterexample(ti.value, ti.atTime, END_DAY);
  }

  /** An interval the registry accepts moves forward from every storable instant in every zone exactly
      when its wrapped product moves forward and stays in time. */
  lemma ProgressIff(ti: TaskInterval)
    requires ti.Valid() && (ti.kind.Monthly? ==> ti.value <= MONTHS_WITHIN_TWO_TURNS)
    ensures (forall offset: Offset, from | Storable(from) :: from < NextExecution(ti, offset, from))
       <==> MovesForward(ti) && StaysInTime(ti)
  {
    if MovesForward(ti) && StaysInTime(ti) {
      forall offset: Offset, from | Storable(from) ensures from < NextExecution(ti, offset, from) {
        KeepsMoving(ti, offset, from);
      }
    } else {
      var offset, from := Stalls(ti);
      assert Storable(from) && NextExecution(ti, offset, from) <= from;
    }
  }

  // ----- inputs that fail -----

  /** One hour more than the largest safe value schedules a task 292 years into the past. */
  lemma HourlyWrapExample()
    ensures NextHourly(MAX_HOURLY_VALUE + 1, 0) < 0
  {
  }

  lemma SecondsBack(days: int)
    requires days == 144_115_188_075_855_871
    ensures SecondsOf(days) == -86400
  {
    assert 86400 * days == -86400 + 675 * TWO_64;
    WrapIgnoresMultiples(-86400, 675);
  }

  /** An accepted daily value whose seconds wrap to a day back: yesterday's midnight. */
  lemma DailyWrapExample(value: int, offset: Offset, from: int)
    requires value == 144_115_188_075_855_871 && Storable(from)
    ensures NextDaily(value, None, offset, from) == Instant(offset, LocalDay(offset, from) - 1, 0)
  {
    LastMidnight(offset, from);
    DailyAsShift(value, None, offset, from);
    BackToYesterday(value, offset, LocalDay(offset, from));
  }

  lemma BackToYesterday(value: int, offset: Offset, day: int)
    requires value == 144_115_188_075_855_871 && NearStorable(Instant(offset, day, 0))
    ensures Shift64(offset, Instant(offset, day, 0), value, None) == Instant(offset, day - 1, 0)
  {
    SecondsBack(value);
    EarlyShift(offset, Instant(offset, day, 0), value);
  }

  lemma EarlyShift(offset: Offset, t: int, days: int)
    requires NearStorable(t) && -700_000 <= SecondsOf(days) <= 0
    ensures Shift64(offset, t, days, None) == t + SecondsOf(days) * SECOND
  {
    AddDaysMoves(offset, t, days);
    WrappedDays(offset, t, days);
    WrappedFits(t + SecondsOf(days) * SECOND);
  }

  /** An accepted weekly value whose 7*Value wraps to -2: two days before the UTC cut. */
  lemma WeeklyWrapExample(offset: Offset, from: int)
    requires Storable(from)
    ensures NextWeekly(2_635_249_153_387_078_802, None, offset, from) == Truncate(from, DAY) - 2 * DAY
  {
    TruncatedStorable(from);
    assert Wrap64(7 * 2_635_249_153_387_078_802) == -2;
    EarlyShift(offset, Truncate(from, DAY), -2);
  }

  /** One whose 7*Value fits an int64, and whose seconds still wrap to a day back: in UTC the weekday
      before. */
  lemma WeeklySecondsWrapExample(offset: Offset, from: int)
    requires Storable(from)
    ensures 7 * 20_587_884_010_836_553 <= MAX_INT64
    ensures NextWeekly(20_587_884_010_836_553, None, offset, from) == Truncate(from, DAY) - DAY
  {
    TruncatedStorable(from);
    assert Wrap64(7 * 20_587_884_010_836_553) == 144_115_188_075_855_871;
    EarlyShift(offset, Truncate(from, DAY), 144_115_188_075_855_871);
  }

  // ----- order -----

  lemma GoalsAscend(value: int, seconds: int, atTime: Option<TimeOfDay>, offset: int, from1: int, from2: int)
    requires ValidAt(atTime) && from1 <= from2 && DailyForward(seconds) && (value == 1 ==> seconds == 86400)
    ensures DailyGoal(value, seconds, atTime, offset, from1) <= DailyGoal(value, seconds, atTime, offset, from2)
  {
    LocalDayMonotone(offset, from1, from2);
    AheadOfDay(seconds, atTime);
  }

  lemma DailyMonotone(value: int, atTime: Option<TimeOfDay>, offset: Offset, from1: int, from2: int)
    requires ValidAt(atTime) && Storable(from1) && Storable(from2) && from1 <= from2
    requires DailyForward(SecondsOf(value)) && DailyStays(SecondsOf(value), atTime)
    ensures NextDaily(value, atTime, offset, from1) <= NextDaily(value, atTime, offset, from2)
  {
    DailyInTime(value, atTime, offset, from1);
    DailyInTime(value, atTime, offset, from2);
    assert value == 1 ==> SecondsOf(value) == 86400 by { OneDayStays(atTime); }
    GoalsAscend(value, SecondsOf(value), atTime, offset, from1, from2);
  }

  lemma WeeklyMonotone(value: int, atTime: Option<TimeOfDay>, offset: Offset, from1: int, from2: int)
    requires ValidAt(atTime) && Storable(from1) && Storable(from2) && from1 <= from2
    requires WeeklyForward(WeeksInSeconds(value), atTime) && WeeklyStays(WeeksInSeconds(value), atTime)
    ensures NextWeekly(value, atTime, offset, from1) <= NextWeekly(value, atTime, offset, from2)
  {
    WeeklyInTime(value, atTime, offset, from1);
    WeeklyInTime(value, atTime, offset, from2);
    ShiftedMonotone(offset, from1, from2, WeeksInSeconds(value), atTime);
  }

  lemma ShiftedMonotone(offset: int, from1: int, from2: int, seconds: int, atTime: Option<TimeOfDay>)
    requires from1 <= from2
    ensures Shifted(offset, Truncate(from1, DAY), seconds, atTime)
         <= Shifted(offset, Truncate(from2, DAY), seconds, atTime)
  {
    TruncateMonotone(from1, from2);
    LocalDayMonotone(offset, Truncate(from1, DAY) + seconds * SECOND, Truncate(from2, DAY) + seconds * SECOND);
  }

  /** From the earliest storable instants a forward task is still in time. */
  lemma EarliestDaily(value: int, atTime: Option<TimeOfDay>)
    requires ValidAt(atTime) && value != 1 && DailyForward(SecondsOf(value))
    ensures Storable(Instant(1, FIRST_DAY, 0))
    ensures (FIRST_DAY - 3) * DAY <= NextDaily(value, atTime, 1, Instant(1, FIRST_DAY, 0))
  {
    DailyFromMidnight(value, atTime, 1, FIRST_DAY);
    ShiftedFromMidnight(1, FIRST_DAY, SecondsOf(value), atTime);
    AheadOfDay(SecondsOf(value), atTime);
    assert SecondsOf(value) <= MAX_INT64;
    ShiftInTime(1, Instant(1, FIRST_DAY, 0), value, atTime);
  }

  lemma EarliestWeekly(value: int, atTime: Option<TimeOfDay>, offset: Offset)
    requires ValidAt(atTime) && WeeklyForward(WeeksInSeconds(value), atTime)
    ensures Storable((FIRST_DAY - 1) * DAY)
    ensures (FIRST_DAY - 3) * DAY <= NextWeekly(value, atTime, offset, (FIRST_DAY - 1) * DAY)
  {
    var cut, s := (FIRST_DAY - 1) * DAY, WeeksInSeconds(value);
    assert Truncate(cut, DAY) == cut;
    assert 0 <= s <= MAX_INT64;
    ShiftedNear(offset, cut, s, atTime);
    ShiftInTime(offset, cut, Wrap64(7 * value), atTime);
  }

  ghost predicate KeepsOrder(ti: TaskInterval) {
    forall offset: Offset, from1, from2 | Storable(from1) && Storable(from2) && from1 <= from2 ::
      NextExecution(ti, offset, from1) <= NextExecution(ti, offset, from2)
  }

  /** An hourly interval keeps the order of its starting instants. A daily or weekly one that moves
      forward does so over the storable instants exactly when it stays in time. */
  lemma MonotoneIff(ti: TaskInterval)
    requires ti.Valid() && !ti.kind.Monthly? && (!ti.kind.Hourly? ==> MovesForward(ti))
    ensures KeepsOrder(ti) <==> StaysInTime(ti)
  {
    if StaysInTime(ti) {
      forall offset: Offset, from1, from2 | Storable(from1) && Storable(from2) && from1 <= from2
        ensures NextExecution(ti, offset, from1) <= NextExecution(ti, offset, from2)
      {
        match ti.kind
        case Hourly => TruncateMonotone(from1, from2);
        case Daily => DailyMonotone(ti.value, ti.atTime, offset, from1, from2);
        case Weekly => WeeklyMonotone(ti.value, ti.atTime, offset, from1, from2);
      }
    } else if ti.kind.Daily? {
      OneDayStays(ti.atTime);
      var from1, from2 := Instant(1, FIRST_DAY, 0), Instant(1, END_DAY + 1, 0);
      EarliestDaily(ti.value, ti.atTime);
      DailyWraps(ti.value, ti.atTime);
      assert NextExecution(ti, 1, from2) < NextExecution(ti, 1, from1);
    } else {
      var offset: Offset := ZoneTaking(WeeksInSeconds(ti.value), 0);
      EarliestWeekly(ti.value, ti.atTime, offset);
      WeeklyWraps(ti.value, ti.atTime);
      assert NextExecution(ti, offset, END_DAY * DAY) < NextExecution(ti, offset, (FIRST_DAY - 1) * DAY);
    }
  }
}
