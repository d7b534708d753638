/** When task types fire: the stored last executions as a state that the ticks of one scheduler
    change, and what that promises over whole runs. */
module Schedule {
  import opened Arith
  import opened Calendar
  import F = Firings
  import opened GoTime
  import opened Intervals
  import opened Registry
  import opened Rfc3339
  import opened StoreKeys

  /** What stays fixed over a run: the task types, the loadable zones and the scheduler's own zone. */
  datatype Setup = Setup(tasks: map<string, TaskType>, zones: Zones, offset: int) {
    ghost predicate Valid() {
      forall id <- tasks :: tasks[id].id == id && Acceptable(tasks[id])
    }
  }

  /** The next execution of a type as a function of its last one. */
  function NextFor(setup: Setup, id: string): int -> int
    requires id in setup.tasks
  {
    var ti := setup.tasks[id].interval;
    var offset := OffsetOf(setup.zones, ti.timezone);
    t => NextExecution(ti, offset, t)
  }

  /** Last executions by task type, as the text stored in Redis. */
  type Stored = map<string, string>

  /** A missing or unreadable entry counts as Go's zero time. */
  function LastExecution(stored: Stored, id: string): int {
    if id in stored then Parse(stored[id]).GetOr(0) else 0
  }

  /** So the intervals only ever start from storable instants. */
  lemma LastExecutionStorable(stored: Stored, id: string)
    ensures Storable(LastExecution(stored, id))
  {
    if id in stored {
      ParsedIsStorable(stored[id]);
    }
  }

  predicate Due(setup: Setup, stored: Stored, id: string, now: int)
    requires id in setup.tasks
  {
    var ti := setup.tasks[id].interval;
    IsDue(ti, OffsetOf(setup.zones, ti.timezone), LastExecution(stored, id), now)
  }

  /** One cycle: when it ran, who had what enabled then, the types whose last execution or users
      could not be read, and those whose new last execution could not be written. */
  datatype Tick = Tick(now: int, index: map<string, set<string>>, unreadable: set<string>, unwritten: set<string>)

  /** Can the tick read the type and its users, and are there any? */
  predicate Able(tick: Tick, id: string) {
    IndexRow(tick.index, id) != {} && id !in tick.unreadable
  }

  /** Does this tick create jobs for the type? */
  predicate Fires(setup: Setup, stored: Stored, id: string, tick: Tick) {
    id in setup.tasks && Due(setup, stored, id, tick.now) && Able(tick, id)
  }

  function FiredNow(setup: Setup, stored: Stored, tick: Tick): set<string> {
    set id | id in setup.tasks && Fires(setup, stored, id, tick)
  }

  /** The last executions of the fired types are overwritten, all others stay. */
  function Recorded(stored: Stored, fired: set<string>, text: string): Stored {
    stored + map id | id in fired :: text
  }

  function AfterTick(setup: Setup, stored: Stored, tick: Tick): Stored
    requires Writable(setup.offset, tick.now)
  {
    Recorded(stored, FiredNow(setup, stored, tick) - tick.unwritten, Format(setup.offset, tick.now))
  }

  // ----- runs -----

  predicate AllWritable(setup: Setup, ticks: seq<Tick>) {
    forall k :: 0 <= k < |ticks| ==> Writable(setup.offset, ticks[k].now)
  }

  /** Which ticks of the run fire the type. */
  function FiringMarks(setup: Setup, stored: Stored, ticks: seq<Tick>, id: string): (r: seq<bool>)
    requires AllWritable(setup, ticks)
    ensures |r| == |ticks|
    decreases ticks
  {
    if ticks == [] then []
    else [id in FiredNow(setup, stored, ticks[0])]
         + FiringMarks(setup, AfterTick(setup, stored, ticks[0]), ticks[1..], id)
  }

  /** The firings whose last execution was written. */
  function RecordedMarks(setup: Setup, stored: Stored, ticks: seq<Tick>, id: string): (r: seq<bool>)
    requires AllWritable(setup, ticks)
    ensures |r| == |ticks|
  {
    var marks := FiringMarks(setup, stored, ticks, id);
    seq(|ticks|, k requires 0 <= k < |ticks| => marks[k] && id !in ticks[k].unwritten)
  }

  /** What one tick does to the last execution of a type, read back from its text: only the part
      below a second is lost. */
  lemma StoredStep(setup: Setup, stored: Stored, tick: Tick, id: string)
    requires Writable(setup.offset, tick.now)
    ensures LastExecution(AfterTick(setup, stored, tick), id)
         == if id in FiredNow(setup, stored, tick) && id !in tick.unwritten then Truncate(tick.now, SECOND)
            else LastExecution(stored, id)
  {
    RoundTrip(setup.offset, tick.now);
  }

  /** A type is due by its stored text exactly when it is due by the instant that was stored. */
  lemma StoredTextDecidesAlike(setup: Setup, stored: Stored, id: string, last: int, now: int)
    requires setup.Valid() && id in setup.tasks && Writable(setup.offset, last)
    ensures Due(setup, stored[id := Format(setup.offset, last)], id, now)
        <==> IsDue(setup.tasks[id].interval, OffsetOf(setup.zones, setup.tasks[id].interval.timezone), last, now)
  {
    RoundTrip(setup.offset, last);
    WholeSecondsSuffice(setup.tasks[id].interval, OffsetOf(setup.zones, setup.tasks[id].interval.timezone), last);
  }

  function ChanceOf(tick: Tick, id: string): F.Chance {
    F.Chance(tick.now, Able(tick, id), id !in tick.unwritten)
  }

  function Chances(ticks: seq<Tick>, id: string): (r: seq<F.Chance>)
    ensures |r| == |ticks| && forall k :: 0 <= k < |ticks| ==> r[k] == ChanceOf(ticks[k], id)
  {
    seq(|ticks|, k requires 0 <= k < |ticks| => ChanceOf(ticks[k], id))
  }

  lemma FiredIsChanceTaken(setup: Setup, stored: Stored, tick: Tick, id: string)
    requires id in setup.tasks
    ensures id in FiredNow(setup, stored, tick)
        <==> F.Fires(NextFor(setup, id), LastExecution(stored, id), ChanceOf(tick, id))
  {
  }

  lemma StepAgrees(setup: Setup, stored: Stored, tick: Tick, id: string)
    requires id in setup.tasks && Writable(setup.offset, tick.now)
    ensures LastExecution(AfterTick(setup, stored, tick), id)
         == F.Step(NextFor(setup, id), LastExecution(stored, id), ChanceOf(tick, id))
  {
    FiredIsChanceTaken(setup, stored, tick, id);
    StoredStep(setup, stored, tick, id);
  }

  /** The scheduler with its text entries behaves, for each type, as the single-type machine. */
  lemma {:induction false} RunRefinesMarks(
    setup: Setup, stored: Stored, ticks: seq<Tick>, id: string, last: int, next: int -> int)
    requires AllWritable(setup, ticks) && id in setup.tasks
    requires last == LastExecution(stored, id) && next == NextFor(setup, id)
    ensures FiringMarks(setup, stored, ticks, id) == F.Marks(next, last, Chances(ticks, id))
    decreases ticks
  {
    if ticks != [] {
      var tick, chances := ticks[0], Chances(ticks, id);
      FiredIsChanceTaken(setup, stored, tick, id);
      StepAgrees(setup, stored, tick, id);
      assert chances[1..] == Chances(ticks[1..], id);
      RunRefinesMarks(setup, AfterTick(setup, stored, tick), ticks[1..], id, F.Step(next, last, chances[0]), next);
    }
  }

  /** Registered intervals do not see the sub-second part the text form drops. */
  lemma NextIgnoresSubSeconds(setup: Setup, id: string)
    requires setup.Valid() && id in setup.tasks
    ensures forall t :: NextFor(setup, id)(Truncate(t, SECOND)) == NextFor(setup, id)(t)
  {
    var ti := setup.tasks[id].interval;
    forall t ensures NextFor(setup, id)(Truncate(t, SECOND)) == NextFor(setup, id)(t) {
      WholeSecondsSuffice(ti, OffsetOf(setup.zones, ti.timezone), t);
    }
  }

  /** After a recorded firing at tick i, the type fires at the first tick at or after the due time that
      can read it and finds an enabled user: missed intervals are neither repeated nor do they delay
      it. When that firing is not recorded, every further such tick fires again until one is. */
  lemma NextFiringIff(setup: Setup, stored: Stored, ticks: seq<Tick>, id: string, i: nat, j: nat)
    requires setup.Valid() && AllWritable(setup, ticks) && id in setup.tasks && i < j < |ticks|
    requires RecordedMarks(setup, stored, ticks, id)[i]
    requires forall k :: i < k < j ==> !RecordedMarks(setup, stored, ticks, id)[k]
    ensures FiringMarks(setup, stored, ticks, id)[j]
        <==> NextFor(setup, id)(ticks[i].now) <= ticks[j].now && Able(ticks[j], id)
  {
    var recorded, chances := RecordedMarks(setup, stored, ticks, id), Chances(ticks, id);
    RunRefinesMarks(setup, stored, ticks, id, LastExecution(stored, id), NextFor(setup, id));
    NextIgnoresSubSeconds(setup, id);
    var marks := F.Marks(NextFor(setup, id), LastExecution(stored, id), chances);
    forall k | i + 1 <= k < j ensures !(marks[k] && chances[k].stamped) {
      assert !recorded[k];
    }
    assert recorded[i] && F.NoStampBetween(marks, chances, i + 1, j);
    F.NextMark(NextFor(setup, id), LastExecution(stored, id), chances, i, j);
  }

  /** Before its first recorded firing of the run, a type waits for the due time of its stored entry. */
  lemma FirstFiringIff(setup: Setup, stored: Stored, ticks: seq<Tick>, id: string, j: nat)
    requires AllWritable(setup, ticks) && id in setup.tasks && j < |ticks|
    requires forall k :: 0 <= k < j ==> !RecordedMarks(setup, stored, ticks, id)[k]
    ensures FiringMarks(setup, stored, ticks, id)[j]
        <==> NextFor(setup, id)(LastExecution(stored, id)) <= ticks[j].now && Able(ticks[j], id)
  {
    var recorded, chances := RecordedMarks(setup, stored, ticks, id), Chances(ticks, id);
    RunRefinesMarks(setup, stored, ticks, id, LastExecution(stored, id), NextFor(setup, id));
    var marks := F.Marks(NextFor(setup, id), LastExecution(stored, id), chances);
    forall k | 0 <= k < j ensures !(marks[k] && chances[k].stamped) {
      assert !recorded[k];
    }
    F.FirstMark(NextFor(setup, id), LastExecution(stored, id), chances, j);
  }

  // ----- how often an hourly type fires -----

  /** How many hours an hourly interval's wrapped product strides: its value, unless it wraps. */
  function Stride(value: int): int {
    1 + Wrap64((value - 1) * HOUR) / HOUR
  }

  lemma StrideIsValue(value: int)
    requires 1 <= value <= MAX_HOURLY_VALUE
    ensures Stride(value) == value
  {
    HourlyNoWrap(value);
  }

  predicate ForwardHourly(setup: Setup, id: string) {
    && id in setup.tasks && setup.tasks[id].interval.kind.Hourly?
    && 1 <= setup.tasks[id].interval.value && 1 <= Stride(setup.tasks[id].interval.value)
  }

  lemma HourlyNext(value: int, from: int, t: int)
    requires 1 <= value && 1 <= Stride(value) && NextHourly(value, from) <= t
    ensures F.HourOf(from) + Stride(value) <= F.HourOf(t)
  {
    var product := Wrap64((value - 1) * HOUR);
    assert Truncate(from, HOUR) == F.HourOf(from) * HOUR;
    assert product / HOUR * HOUR <= product;
    assert (F.HourOf(from) + Stride(value)) * HOUR <= t;
  }

  function TickHours(ticks: seq<Tick>): (r: seq<int>)
    ensures |r| == |ticks| && forall k :: 0 <= k < |ticks| ==> r[k] == F.HourOf(ticks[k].now)
  {
    seq(|ticks|, k requires 0 <= k < |ticks| => F.HourOf(ticks[k].now))
  }

  lemma SpacedFirings(setup: Setup, stored: Stored, ticks: seq<Tick>, id: string)
    requires setup.Valid() && AllWritable(setup, ticks) && ForwardHourly(setup, id)
    ensures F.Spaced(RecordedMarks(setup, stored, ticks, id), TickHours(ticks), Stride(setup.tasks[id].interval.value))
  {
    var marks, hours := RecordedMarks(setup, stored, ticks, id), TickHours(ticks);
    var value := setup.tasks[id].interval.value;
    forall p, j | 0 <= p < j < |marks| && F.Consecutive(marks, p, j) ensures hours[p] + Stride(value) <= hours[j] {
      NextFiringIff(setup, stored, ticks, id, p, j);
      HourlyNext(value, ticks[p].now, ticks[j].now);
    }
  }

  /** In any N consecutive clock hours an hourly type that strides v hours has at most ceil(N / v)
      recorded firings, even if the scheduler's clock goes back in between; these are all its firings when its
      writes succeed. */
  lemma HourlyRate(setup: Setup, stored: Stored, ticks: seq<Tick>, id: string, v: int, hour: int, count: nat)
    requires setup.Valid() && AllWritable(setup, ticks) && ForwardHourly(setup, id)
    requires v == Stride(setup.tasks[id].interval.value)
    ensures var marks := RecordedMarks(setup, stored, ticks, id);
            F.MarkedWithin(marks, TickHours(ticks), |marks|, hour, hour + count) <= (count + v - 1) / v
    ensures (forall tick <- ticks :: id !in tick.unwritten) ==>
              RecordedMarks(setup, stored, ticks, id) == FiringMarks(setup, stored, ticks, id)
  {
    SpacedFirings(setup, stored, ticks, id);
    F.MarkedRate(RecordedMarks(setup, stored, ticks, id), TickHours(ticks), v, hour, count);
    if forall tick <- ticks :: id !in tick.unwritten {
      forall k | 0 <= k < |ticks| ensures id !in ticks[k].unwritten {
        assert ticks[k] in ticks;
      }
    }
  }

  // ----- and how often at least -----

  predicate Served(tick: Tick, id: string) {
    IndexRow(tick.index, id) != {} && id !in tick.unreadable && id !in tick.unwritten
  }

  /** The latest recorded firing before tick j, if there is one. */
  lemma {:induction false} LatestRecorded(marks: seq<bool>, j: nat) returns (p: int)
    requires j <= |marks|
    ensures -1 <= p < j && (0 <= p ==> marks[p]) && forall k :: p < k < j ==> !marks[k]
  {
    if j == 0 {
      p := -1;
    } else if marks[j - 1] {
      p := j - 1;
    } else {
      p := LatestRecorded(marks, j - 1);
    }
  }

  lemma HourlyDue(value: int, from: int, t: int)
    requires 1 <= value <= MAX_HOURLY_VALUE && F.HourOf(from) + value <= F.HourOf(t)
    ensures NextHourly(value, from) <= t
  {
    HourlyNoWrap(value);
    assert NextHourly(value, from) == (F.HourOf(from) + value) * HOUR;
  }

  function ServedTicks(ticks: seq<Tick>, id: string): (r: seq<bool>)
    ensures |r| == |ticks| && forall k :: 0 <= k < |ticks| ==> r[k] == Served(ticks[k], id)
  {
    seq(|ticks|, k requires 0 <= k < |ticks| => Served(ticks[k], id))
  }

  lemma PromptFiring(setup: Setup, stored: Stored, ticks: seq<Tick>, id: string, v: int, j: nat)
    requires setup.Valid() && AllWritable(setup, ticks) && id in setup.tasks
    requires setup.tasks[id].interval.kind.Hourly? && v == setup.tasks[id].interval.value <= MAX_HOURLY_VALUE
    requires j < |ticks| && Served(ticks[j], id)
    requires F.HourOf(LastExecution(stored, id)) + v <= F.HourOf(ticks[j].now)
    requires F.Rested(RecordedMarks(setup, stored, ticks, id), TickHours(ticks), j, v)
    ensures RecordedMarks(setup, stored, ticks, id)[j]
  {
    var p := LatestRecorded(RecordedMarks(setup, stored, ticks, id), j);
    if p == -1 {
      HourlyDue(v, LastExecution(stored, id), ticks[j].now);
      FirstFiringIff(setup, stored, ticks, id, j);
    } else {
      HourlyDue(v, ticks[p].now, ticks[j].now);
      NextFiringIff(setup, stored, ticks, id, p, j);
    }
  }

  lemma PromptFirings(setup: Setup, stored: Stored, ticks: seq<Tick>, id: string, v: int)
    requires setup.Valid() && AllWritable(setup, ticks) && id in setup.tasks
    requires setup.tasks[id].interval.kind.Hourly? && v == setup.tasks[id].interval.value <= MAX_HOURLY_VALUE
    ensures F.Prompt(RecordedMarks(setup, stored, ticks, id), TickHours(ticks), ServedTicks(ticks, id),
                     F.HourOf(LastExecution(stored, id)), v)
  {
    var marks, hours := RecordedMarks(setup, stored, ticks, id), TickHours(ticks);
    forall j | && 0 <= j < |marks| && ServedTicks(ticks, id)[j]
               && F.HourOf(LastExecution(stored, id)) + v <= hours[j] && F.Rested(marks, hours, j, v)
      ensures marks[j]
    {
      PromptFiring(setup, stored, ticks, id, v, j);
    }
  }

  /** With a tick in every clock hour that can read the type, finds a user and writes the stamp, N
      consecutive hours hold at least floor(N / v) firings of an hourly type with value v. */
  lemma HourlyAtLeast(setup: Setup, stored: Stored, ticks: seq<Tick>, id: string, v: int, hour: int, count: nat)
    requires setup.Valid() && AllWritable(setup, ticks) && id in setup.tasks
    requires setup.tasks[id].interval.kind.Hourly? && v == setup.tasks[id].interval.value <= MAX_HOURLY_VALUE
    requires forall i, j :: 0 <= i <= j < |ticks| ==> ticks[i].now <= ticks[j].now
    requires LastExecution(stored, id) < hour * HOUR
    requires forall h :: hour <= h < hour + count ==> F.GoodIn(TickHours(ticks), ServedTicks(ticks, id), h)
    ensures var marks := RecordedMarks(setup, stored, ticks, id);
            count / v <= F.MarkedWithin(marks, TickHours(ticks), |marks|, hour, hour + count)
  {
    PromptFirings(setup, stored, ticks, id, v);
    TickHoursAscend(ticks);
    HourBefore(LastExecution(stored, id), hour);
    F.MarkedAtLeast(RecordedMarks(setup, stored, ticks, id), TickHours(ticks), ServedTicks(ticks, id),
                    F.HourOf(LastExecution(stored, id)), v, hour, count);
  }

  lemma HourBefore(t: int, hour: int)
    requires t < hour * HOUR
    ensures F.HourOf(t) < hour
  {
  }

  lemma TickHoursAscend(ticks: seq<Tick>)
    requires forall i, j :: 0 <= i <= j < |ticks| ==> ticks[i].now <= ticks[j].now
    ensures F.Ascending(TickHours(ticks))
  {
    var hours := TickHours(ticks);
    forall i, j | 0 <= i <= j < |hours| ensures hours[i] <= hours[j] {
      HoursAscend(ticks[i].now, ticks[j].now);
    }
  }

  lemma HoursAscend(a: int, b: int)
    requires a <= b
    ensures F.HourOf(a) <= F.HourOf(b)
  {
  }

  // ----- what a last execution means -----

  /** A type with no entry, or an unreadable one, counts as last executed at the zero time: before its
      first recorded firing it fires from the next execution after that on. */
  lemma NewTypeFiringIff(setup: Setup, stored: Stored, ticks: seq<Tick>, id: string, j: nat)
    requires AllWritable(setup, ticks) && id in setup.tasks && j < |ticks|
    requires id in stored ==> Parse(stored[id]).None?
    requires forall k :: 0 <= k < j ==> !RecordedMarks(setup, stored, ticks, id)[k]
    ensures var interval := setup.tasks[id].interval;
            var offset := if interval.timezone in setup.zones then setup.zones[interval.timezone] else 0;
            FiringMarks(setup, stored, ticks, id)[j]
            <==> && NextExecution(interval, offset, 0) <= ticks[j].now
                 && IndexRow(ticks[j].index, id) != {} && id !in ticks[j].unreadable
  {
    FirstFiringIff(setup, stored, ticks, id, j);
  }

  /** A daily type with value 1 and a time of day is next due at the least later instant at that time in
      its own zone, or in UTC when that does not load. */
  lemma DueInOwnZone(setup: Setup, id: string, last: int, t: int)
    requires setup.Valid() && id in setup.tasks && Storable(last)
    requires var ti := setup.tasks[id].interval; ti.kind.Daily? && ti.value == 1 && ti.atTime.Some?
    ensures var ti, due := setup.tasks[id].interval, NextFor(setup, id)(last);
            var offset := if ti.timezone in setup.zones then setup.zones[ti.timezone] else 0;
            var clock := (ti.atTime.value.hour * 3600 + ti.atTime.value.minute * 60) * SECOND;
            && last < due && Clock(offset, due) == clock
            && (last < t && Clock(offset, t) == clock ==> due <= t)
  {
    var ti := setup.tasks[id].interval;
    var at, offset := ti.atTime.value, if ti.timezone in setup.zones then setup.zones[ti.timezone] else 0;
    ClockMeans(at);
    DailyIsLeast(at, offset, last, t);
    NextDailyOf(ti, offset, last);
  }

  lemma NextDailyOf(ti: TaskInterval, offset: Offset, last: int)
    requires ti.kind.Daily? && ti.value == 1
    ensures NextExecution(ti, offset, last) == NextDaily(1, ti.atTime, offset, last)
  {
  }
}
