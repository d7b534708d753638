/** Go's time.Time in 64 bits. An instant is an int64 of seconds since 1 January of year 1 and
    nanoseconds within the second; time.Date computes the seconds modulo 2^64, and a civil date is read
    off a uint64 of seconds since the absolute zero year. Here instants are nanoseconds, as in Calendar,
    whose exact arithmetic these functions agree with as long as nothing wraps. */
module GoTime {
  import opened Arith
  import opened Calendar

  /** A fixed zone, in minutes east of UTC. */
  type Offset = minutes: int | -1440 < minutes < 1440

  /** Seconds from the absolute zero year to year 1. */
  const ABSOLUTE: int := 9_223_371_966_579_724_800

  /** The instant that a count of nanoseconds becomes when its seconds wrap. */
  function Wrapped(t: int): int {
    Wrap64(t / SECOND) * SECOND + t % SECOND
  }

  /** Local time as the civil fields of an instant show it. */
  function Reading(offset: Offset, t: int): int {
    (Mod64(t / SECOND + offset * 60 + ABSOLUTE) - ABSOLUTE) * SECOND + t % SECOND
  }

  function ReadDay(offset: Offset, t: int): int {
    Reading(offset, t) / DAY
  }

  function ReadClock(offset: Offset, t: int): int {
    Reading(offset, t) % DAY
  }

  /** time.Date for a day number and a clock reading. */
  function DateAt(offset: Offset, day: int, clock: int): int {
    Wrapped(Instant(offset, day, clock))
  }

  /** Months are added in an int64. */
  function MonthsLater(index: int, months: int): int {
    index - index % 12 + Wrap64(index % 12 + months)
  }

  /** Time.AddDate with no years. A wrap of the day of month is one of whole multiples of 2^64, which
      the seconds lose anyway. */
  function AddDateAt(offset: Offset, t: int, months: int, days: int): int {
    var day := ReadDay(offset, t);
    DateAt(offset, Date(MonthsLater(MonthOf(day), months), DayOf(day) + days), ReadClock(offset, t))
  }

  // ----- where nothing wraps -----

  predicate Representable(t: int) {
    -TWO_63 <= t / SECOND < TWO_63
  }

  predicate Readable(offset: Offset, t: int) {
    0 <= t / SECOND + offset * 60 + ABSOLUTE < TWO_64
  }

  const FIRST_DAY: int := -366
  const END_DAY: int := 3652059

  /** Every instant whose text has a four-digit year in some zone, as stored last executions do. */
  predicate Storable(t: int) {
    (FIRST_DAY - 1) * DAY <= t < (END_DAY + 1) * DAY
  }

  lemma WrappedFits(t: int)
    requires Representable(t)
    ensures Wrapped(t) == t
  {
  }

  lemma ReadingFits(offset: Offset, t: int)
    requires Readable(offset, t)
    ensures Reading(offset, t) == t + offset * MINUTE
    ensures ReadDay(offset, t) == LocalDay(offset, t) && ReadClock(offset, t) == Clock(offset, t)
  {
  }

  lemma SecondsAdd(t: int, seconds: int)
    ensures (t + seconds * SECOND) / SECOND == t / SECOND + seconds
    ensures (t + seconds * SECOND) % SECOND == t % SECOND
  {
  }

  /** What was wrapped reads the same, and wraps the same. */
  lemma WholeTurns(offset: Offset, t: int, k: int)
    ensures Wrapped(t + k * TWO_64 * SECOND) == Wrapped(t)
    ensures Reading(offset, t + k * TWO_64 * SECOND) == Reading(offset, t)
  {
    SecondsAdd(t, k * TWO_64);
    WrapIgnoresMultiples(t / SECOND, k);
    ModIgnoresMultiples(t / SECOND + offset * 60 + ABSOLUTE, k);
  }

  /** How many turns wrapping takes away. */
  lemma WrapTurns(x: int) returns (k: int)
    ensures Wrap64(x) == x + k * TWO_64
  {
    k := -((x + TWO_63) / TWO_64);
  }

  lemma ReadWrapped(offset: Offset, t: int)
    ensures Reading(offset, Wrapped(t)) == Reading(offset, t)
  {
    var k := WrapTurns(t / SECOND);
    assert Wrapped(t) == t + k * TWO_64 * SECOND;
    WholeTurns(offset, t, k);
  }

  /** AddDate by days alone moves the seconds by whole days, modulo 2^64. */
  lemma AddDaysMoves(offset: Offset, t: int, days: int)
    requires Readable(offset, t)
    ensures AddDateAt(offset, t, 0, days) == Wrapped(t + days * DAY)
  {
    ReadingFits(offset, t);
    assert MonthsLater(MonthOf(LocalDay(offset, t)), 0) == MonthOf(LocalDay(offset, t));
    InstantOfParts(offset, t);
  }

  /** So the wrapped product of seconds decides where it ends and what is read there. */
  lemma WrappedDays(offset: Offset, t: int, days: int)
    ensures Wrapped(t + days * DAY) == Wrapped(t + Wrap64(86400 * days) * SECOND)
    ensures Reading(offset, t + days * DAY) == Reading(offset, t + Wrap64(86400 * days) * SECOND)
  {
    var k := WrapTurns(86400 * days);
    assert t + Wrap64(86400 * days) * SECOND == t + days * DAY + k * TWO_64 * SECOND;
    WholeTurns(offset, t + days * DAY, k);
  }

  lemma StorableReads(offset: Offset, t: int)
    requires Storable(t)
    ensures Readable(offset, t) && Representable(t)
    ensures FIRST_DAY - 2 <= LocalDay(offset, t) <= END_DAY + 1
    ensures ReadDay(offset, t) == LocalDay(offset, t) && ReadClock(offset, t) == Clock(offset, t)
  {
    ReadingFits(offset, t);
  }
}
