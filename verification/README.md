# Task queue: a verified model

This project models the distributed task scheduler of the repository in Dafny and proves what its
five interlocking pieces guarantee over whole runs.

- **Token bucket** (`TokenBucket.dfy`, `Limiter.dfy`): the Lua script as one atomic step on a Redis
  hash, runs of it from many clients, its distance to an ideal fractional bucket, and its expiry.
- **Calendar scheduling** (`Calendar.dfy`, `GoTime.dfy`, `Intervals.dfy`, `Progress.dfy`,
  `Registry.dfy`, `Rfc3339.dfy`, `Firings.dfy`, `Schedule.dfy`, `Scheduler.dfy`): the Gregorian
  calendar with Go's date normalisation and its 64-bit arithmetic, `NextExecution`, registry
  validation, the text form of last executions, and the scheduling cycle as a state machine.
- **User store** (`Redis.dfy`, `StoreKeys.dfy`, `Preferences.dfy`, `Pipelines.dfy`, `Cells.dfy`,
  `Interleaving.dfy`, `Recovery.dfy`, `Pattern.dfy`, `UserStore.dfy`): a flat string-keyed database,
  the five maps it stands for, and the relation of who has what enabled; pipelines as single commands
  that may interleave and may break off.
- **Distributor** (`Distributor.dfy`): jittered slots, an in-place shuffle, pushes that may fail.
- **Worker pool** (`Jobs.dfy`, `Backoff.dfy`, `Lineages.dfy`, `WorkerPool.dfy`, `ExecutionBound.dfy`,
  `Histories.dfy`, `Pool.dfy`): the steps of `processJob` interleaved between any number of workers,
  with retries, composed with the token bucket.

Each state-changing piece has a class whose methods follow the code and are proved equal to a
specification function; the theorems are about that function and about runs of it.

## Assumptions

- Lua numbers are exact (products below 2^53); 0 / 0 is not a number, and math.min keeps its first
  argument against it. Redis keeps a key before its deadline, may drop it at the deadline, and has
  dropped it after; EXPIRE with zero seconds deletes the key.
- Time zones are fixed offsets of whole minutes, less than a day from UTC. An instant is an int64 of
  seconds and nanoseconds within the second, as in Go 1.22: `time.Date` and with it `AddDate` compute
  the seconds modulo 2^64, and a civil date is read off a uint64 of seconds since the absolute zero
  year. `(Value-1) * time.Hour`, `7*Value` and the sum of months wrap as int64.
- `NextExecution` starts from an instant that a text with a four-digit year in some zone denotes, or
  from the zero time; the scheduler never starts it from any other (`Schedule.LastExecutionStorable`).
- Last executions are stored in years 0000 to 9999.
- A Redis call that fails may have been executed or not, and a pipeline that fails may have been
  executed up to any of its commands.
- The queue delivers a message to one worker at a time, acknowledgements succeed, and a message
  becomes visible again only when no worker holds it. New job ids are fresh and of one length.
- Settings are kept as their JSON text, which round-trips; stored texts that do not parse are skipped by
  readers.

## Where code and documentation differ

- The default burst is `limit + 50`, not limit plus 50 per cent as the comment at
  `internal/ratelimit/limiter.go:47` says.
- A window below one second is accepted and truncated to zero; the limiter then grants every request
  up to the burst (`internal/ratelimit/limiter.go:70`).
- An early job is acknowledged and thereby lost (`internal/worker/worker.go:169-177`), although the
  comment there speaks of putting it back. `ShouldRetry` ignores its argument
  (`internal/models/job.go:77-82`), so retries are unlimited.
- "Next week on the same day" (`internal/models/task.go:96`), for values that do not wrap, holds for
  every instant in UTC and in no other zone: elsewhere it fails while the local clock has not reached
  the zone's reading of UTC midnight.
- Registration accepts values of every kind whose 64-bit product wraps, so that the next execution can
  lie in the past: daily 144115188075855871 leads to yesterday, weekly 20587884010836553 a day back.
- Backoff is as documented only up to the last attempt whose product fits 64 bits. The attempt after
  it gets a negative delay, attempt 35 with a base of one second; from attempt 65 on the delay is zero.
- A delete that cannot read the user's tasks reports success without deleting
  (`internal/storage/user_store.go:333-337`), and one that breaks off after its first command cannot be
  made good by repeating it when an index entry was left.

## Model

| member | source | states |
|---|---|---|
| TokenBucket.WindowBound | internal/ratelimit/limiter.go:159-191 | in every run, for every i <= j with call j granted, calls i..j are granted at most burst + floor((t_j - t_i) * limit / window) tokens together, whatever the clocks do in between |
| TokenBucket.MonotoneBound | internal/ratelimit/limiter.go:159-191 | the same bound for any stretch, whether or not its last call is granted, when the clock does not go back within it |
| TokenBucket.IdealDistance | internal/ratelimit/limiter.go:159-185 | scaled by the window, a fractional bucket with the same grants is never behind the script and at most one window less one per call ahead; never apart at all when the window divides the limit |
| TokenBucket.FreshRunTracksIdeal | internal/ratelimit/limiter.go:155-185 | the same for a bucket that the first call creates full |
| TokenBucket.DecisionTracksIdeal | internal/ratelimit/limiter.go:165-168 | a grant is always covered by the ideal bucket, a denial overshoots by at most the accumulated flooring, and with a whole-number rate both decide alike |
| TokenBucket.DeniedCallInvisibleIff | internal/ratelimit/limiter.go:159-190 | on a monotone clock and without expiry, inserting a denied call changes no other answer and no later hash in any run if and only if the window divides the limit or burst <= (limit / window) * ceil(window / (limit mod window)) |
| TokenBucket.DeniedCallNoticed | internal/ratelimit/limiter.go:180-190 | for every other setting, a run in which a denied call costs a later one its grant |
| TokenBucket.DeniedSingleInvisibleIff | internal/ratelimit/limiter.go:58-60 | for the calls the program makes, each for one token: inserting a denied call changes no other answer and no later hash in any run if and only if window <= limit |
| TokenBucket.DeniedSingleNoticed | internal/ratelimit/limiter.go:58-60 | for every other setting, a run of single-token calls in which a denied one costs a later one its grant |
| TokenBucket.ExpiryUnobservableIff | internal/ratelimit/limiter.go:154-188 | the EXPIRE of two windows changes no answer and no token count on any possible run if and only if burst <= 2 * limit |
| TokenBucket.TracesAgree | internal/ratelimit/limiter.go:163-188 | with burst <= 2 * limit the runs with and without expiry show the same, and tokens stay within 0..burst |
| Limiters.Limiter.constructor | internal/ratelimit/limiter.go:28-54 | the defaults: limit 100, window one second, burst limit + 50; any positive window is accepted |
| Limiters.Limiter.Script | internal/ratelimit/limiter.go:145-192 | the script statement by statement: answer, new hash and deadline are those of one step of the bucket |
| Limiters.Limiter.AllowN | internal/ratelimit/limiter.go:63-86 | a request for nothing is granted without touching the hash; any other is one script call at the client's clock with a window of windowNs / 1s seconds and twice that to live, executed or not when an error comes back; such a window after the last refill, requests up to limit and burst are granted; with a window below a second every request up to burst is |
| Limiters.Limiter.FullAfterWindow | internal/ratelimit/limiter.go:70-163 | a window of windowNs / 1s seconds after its last refill, a hash without debt grants every request up to limit and burst |
| Limiters.Limiter.Reset | internal/ratelimit/limiter.go:89-92 | the hash is gone afterwards unless the call failed before it was executed |
| Limiters.Limiter.Expire | internal/ratelimit/limiter.go:177 | once its deadline has passed the hash is gone and the recorded run starts anew |
| Limiters.Limiter.HistoryWithinBound | internal/ratelimit/limiter.go:159-191 | the window bound, with windowNs / 1s as its divisor, for the calls a live limiter has made since its hash was created |
| Intervals.MonthlyKeepsDay | internal/models/task.go:106-119 | for values up to 3507324175534, monthly keeps the day of month and lands, at its time of day, in the earliest month at or after the target month that has that day |
| Intervals.OverflowMonth | internal/models/task.go:108-112 | normalising a day its month lacks ends in the following month, so the second time.Date never overflows |
| Calendar.ShortMonthThenLong | internal/models/task.go:108-112 | every month shorter than 31 days is followed by one of 31 |
| Intervals.MonthlyExample | internal/models/task.go:106-119 | 31 January gives 31 March while 1 February gives 1 March: monthly is not monotone |
| Intervals.MonthlyMonotoneIff | internal/models/task.go:106-119 | for the same values, two starting instants are overtaken exactly when the later one is in the next month, on a smaller day, and the earlier one's day is missing from its target month |
| Progress.ProgressIff | internal/models/task.go:51-119 | an accepted interval gives an instant after from, from every storable instant in every zone, if and only if its wrapped product (of hours in nanoseconds, of days in seconds) leads at least a day forward, for weekly with a time of day by as much as the worst zone takes back, and does not lead out of Go's time; for monthly, up to a value of 6.8e12, if and only if it is at most 3507324175534 |
| Progress.DailyWrapExample | internal/models/task.go:73-76 | an accepted daily value whose seconds wrap to a day back: every next execution is yesterday's midnight |
| Progress.WeeklyWrapExample | internal/models/task.go:97 | an accepted weekly value whose product wraps to -2: every next execution lies two days before the truncated from |
| Progress.WeeklySecondsWrapExample | internal/models/task.go:97 | one whose product fits and whose seconds wrap: a day back |
| Progress.HourlyProgressIff | internal/models/task.go:60-66 | hourly moves forward from every instant if and only if the wrapped product (Value-1) * Hour is not negative |
| Intervals.HourlyOnTheHour | internal/models/task.go:60-66 | for values up to 2562048, hourly gives a full hour, more than value - 1 and at most value hours ahead |
| Intervals.HourlyNoWrap | internal/models/task.go:63-65 | values up to 2562048 do not wrap |
| Progress.HourlyWrapExample | internal/models/task.go:63-65 | the next larger value gives an instant in the past |
| Intervals.DailyIsLeast | internal/models/task.go:73-91 | daily with value 1 and a time of day gives the least instant after from at that local time |
| Intervals.DailyLandingDay | internal/models/task.go:68-93 | daily lands value local days later at its time of day or at midnight, or today when value 1 still finds its time ahead |
| Intervals.WeekdayKeptIff | internal/models/task.go:95-104 | for any value whose days fit 64-bit seconds, any time of day, zone and storable instant, weekly keeps the weekday if and only if the local clock has reached the zone's reading of UTC midnight |
| Intervals.WeekdayAlwaysKeptIff | internal/models/task.go:95-104 | for these values it keeps the weekday from every storable instant if and only if the zone is UTC |
| Intervals.WeeklyLandingDay | internal/models/task.go:95-104 | for these values, the local day and clock a weekly task lands on |
| Intervals.WeeklyKeepsWeekdayInUtc | internal/models/task.go:95-104 | for these values, in UTC weekly lands 7 * Value days later on the same weekday at its time of day |
| Intervals.WeeklySlipsExample | internal/models/task.go:97-103 | in UTC-5 a local Tuesday morning leads to a Monday |
| Progress.MonotoneIff | internal/models/task.go:60-104 | hourly never gives an earlier instant for a later from; daily and weekly, when their wrapped product leads forward, do not over all storable instants and zones if and only if it does not lead out of Go's time |
| Intervals.WholeSecondsSufficeIff | internal/models/task.go:51-119 | dropping the sub-second part of from never changes the next execution if and only if the kind is one the registry knows; any other is due one hour later |
| Calendar.ClosedForm | internal/models/task.go:70-73 | counting months of the table one by one agrees with the closed form of the Gregorian calendar for 1 January of every year |
| Calendar.CivilUnique | internal/models/task.go:76-79 | a day number has exactly one month and day of month: civil dates and day numbers are inverse |
| Registry.ValidateInterval | internal/storage/registry.go:188-216 | accepts exactly the known kinds with positive value and a time of day in range, and fills in UTC |
| Registry.ValidateTask | internal/storage/registry.go:149-185 | accepts exactly the tasks with id, name, positive timeout, no negative retries, a valid interval and an endpoint, and fills in method and duration |
| Registry.DefaultsFillGaps | internal/storage/registry.go:176-203 | defaults only fill gaps: given method, headers, duration and zone survive |
| Registry.TaskRegistry.LoadFromFile | internal/storage/registry.go:47-95 | all definitions or none: succeeds exactly when all are acceptable, otherwise the registry stays as it was |
| Registry.LastDefinitionWins | internal/storage/registry.go:83 | of several definitions with one id, the last is registered |
| Registry.OnlyDefinedIds | internal/storage/registry.go:48-84 | nothing else is registered |
| Registry.RegisteredProgressIff | internal/storage/registry.go:188-216 | what validation accepts, after defaults, moves forward from every storable instant in every zone under exactly the same condition |
| Rfc3339.RoundTrip | internal/scheduler/scheduler.go:158-202 | formatting and parsing an instant, in any zone and any four-digit year, loses exactly its sub-second part |
| Rfc3339.FormatShows | internal/scheduler/scheduler.go:202 | the text shows the civil date and the clock of the zone in decimal digits between fixed separators |
| Rfc3339.ZoneShows | internal/scheduler/scheduler.go:202 | and Z in UTC, otherwise the sign, hours and minutes of the zone |
| Rfc3339.ParsedIsStorable | internal/scheduler/scheduler.go:158-164 | whatever text is read back as a last execution, the instant is storable: of a four-digit year in some zone |
| Schedule.LastExecutionStorable | internal/scheduler/scheduler.go:148-165 | so NextExecution only ever starts from storable instants |
| Schedule.StoredTextDecidesAlike | internal/scheduler/scheduler.go:157-167 | a type is due by its stored text exactly when it is due by the instant that was stored |
| Schedule.StoredStep | internal/scheduler/scheduler.go:191-208 | a cycle makes a fired type's last execution read back as its second, unless it could not be written, and leaves every other type's |
| Schedule.RunRefinesMarks | internal/scheduler/scheduler.go:74-208 | through any run of cycles, the text-keyed state behaves for each type like one integer and a due time |
| Schedule.NextFiringIff | internal/scheduler/scheduler.go:148-208 | after a firing whose last execution was written, the type fires at exactly the ticks at or after NextExecution that can read it and find an enabled user, up to and including the first that is written again: missed intervals neither repeat nor delay it |
| Schedule.FirstFiringIff | internal/scheduler/scheduler.go:148-189 | before its first recorded firing of a run a type waits for the due time of its stored entry, or of the zero time |
| Schedule.NewTypeFiringIff | internal/scheduler/scheduler.go:151-170 | a type with no entry or an unreadable one fires, before its first recorded firing, at exactly the ticks that can read it, find an enabled user, and lie at or after NextExecution of the zero time |
| Schedule.DueInOwnZone | internal/models/task.go:52-57 | a daily type with a time of day is due at the least later instant at that time in its own zone, or in UTC when that does not load |
| Schedule.HourlyRate | internal/scheduler/scheduler.go:148-208 | in any N consecutive clock hours an hourly type whose wrapped product strides v hours forward has at most ceil(N / v) firings that are recorded, which are all when its writes succeed, even if the clock goes back in between |
| Schedule.HourlyAtLeast | internal/scheduler/scheduler.go:96-208 | with a tick in every clock hour that reads the type, finds a user and writes the stamp, N consecutive hours hold at least floor(N / v) firings |
| Schedule.StrideIsValue | internal/models/task.go:60-66 | for values up to 2562048 the stride is the value |
| Schedulers.Scheduler.FindDueTasks | internal/scheduler/scheduler.go:148-189 | one entry per indexed user when NextExecution, in the type's own zone, of its last execution has come, a missing or unreadable one counting as the zero time, and none otherwise; an error and no entry when its last execution or, if due, its users cannot be read |
| Schedulers.Scheduler.UpdateLastExecutions | internal/scheduler/scheduler.go:191-208 | exactly the types of the batch are stamped, except those whose write fails |
| Schedulers.Scheduler.CheckAndScheduleTasks | internal/scheduler/scheduler.go:87-133 | whatever the shuffle and whichever reads and writes fail, each pair of a due, readable type and an indexed user yields exactly one job and nothing else does; jobs take distinct slots from now on; last executions change for exactly the types that produced jobs and could be written |
| Schedulers.DistinctUsers | internal/scheduler/scheduler.go:177-185 | listing the users of a set contributes each (type, user) pair once |
| Distribution.SlotGap | internal/distributor/distributor.go:99-112 | slots ascend strictly, and slots k places apart are more than k - 1/4 intervals apart, whatever the jitter |
| Distribution.NeighbourGap | internal/distributor/distributor.go:99-112 | neighbouring slots are more than three quarters of the interval apart |
| Distribution.SpanBound | internal/distributor/distributor.go:99-112 | any half-open span of m intervals holds at most m + 1 slots |
| Distribution.AtMostTwoPerSecond | internal/distributor/distributor.go:93-98 | no second holds more than two jobs of a batch |
| Distribution.EstimateIsTight | internal/distributor/distributor.go:139-154 | the estimate lies above every slot, and above the last by less than an interval plus n nanoseconds |
| Distribution.SlotsFillWindow | internal/distributor/distributor.go:91-126 | when a second per job fits, slot i lies in the first quarter of the i-th n-th part of the window; otherwise in the first quarter of second i |
| Distribution.Distributor.CalculateTimeSlots | internal/distributor/distributor.go:91-126 | none, one at zero, or n slots each within the first quarter of its interval, for every random choice |
| Distribution.Shuffle | internal/distributor/distributor.go:45-49 | whatever the random choices, the shuffled array is a permutation |
| Distribution.Distributor.DistributeTasks | internal/distributor/distributor.go:34-88 | one job per task, at the base time plus its own slot, all at different times; each is a first attempt scheduled now, of normal priority; what reaches the queue is what was accepted, in order, and all of it when every push succeeds |
| StoreKeys.KeysInjective | internal/storage/user_store.go:16-23 | no two uses of the key templates collide, whatever the ids contain |
| Pipelines.ExecRepresents | internal/storage/user_store.go:106-256 | through any commands, the flat database keeps holding exactly the five maps |
| Pipelines.SavePipelineEffect | internal/storage/user_store.go:107-164 | a save's commands, with the index updates in any order, replace the hashes and reindex exactly the saved tasks |
| Pipelines.EnablePipelineEffect | internal/storage/user_store.go:188-205 | the effect of the enable commands on the five maps |
| Pipelines.DisablePipelineEffect | internal/storage/user_store.go:228-242 | the effect of the disable commands on the five maps |
| Pipelines.DeletePipelineEffect | internal/storage/user_store.go:340-359 | a delete's commands remove the user's hashes, the user, and its index entries, in any order |
| Preferences.ApplyRefinesRelation | internal/storage/user_store.go:97-368 | each operation changes who has what enabled as the abstract relation says |
| Preferences.RunKeepsSound | internal/storage/user_store.go:97-368 | over every run of atomic operations, a user whose hash has a task at "1" is in that task's index set and among all users |
| Preferences.ApplyKeepsExactIff | internal/storage/user_store.go:155-162 | from an exact index, an operation keeps it exact if and only if a save's map covers the tasks its user had enabled |
| Preferences.RunKeepsExact | internal/storage/user_store.go:97-368 | over every run whose saves cover, the index equals the hashes |
| Preferences.SaveReadsBack | internal/storage/user_store.go:40-166 | what is saved is read back: tasks, settings that are not nil, and stamp; the user is entered and no other user is touched |
| Preferences.SwitchReadsBack | internal/storage/user_store.go:182-244 | enabling and disabling change the one task, its index entry and the stamp; enabling enters the user; no other user is touched |
| Preferences.DeleteReadsBack | internal/storage/user_store.go:327-368 | deleting leaves of the user only index entries of tasks its hash did not list; no other user is touched |
| UserStores.StampReadsBack | internal/storage/user_store.go:77-84 | the stamp a save, enable or disable writes is the one a later read returns |
| Preferences.ReadEditSaveCovers | internal/models/user.go:38-47 | reading, any sequence of EnableTask and DisableTask, then saving always covers |
| Preferences.ReadEnableSaveIsEnable | internal/storage/user_store.go:182-219 | read, EnableTask, save equals EnableTaskForUser on hashes, index and all users |
| Preferences.ReadDisableSaveIsDisable | internal/storage/user_store.go:222-256 | read, DisableTask, save equals DisableTaskForUser on hashes and index, and only adds the user to all users |
| UserStores.UserPreference.EnableTask | internal/models/user.go:38-41 | one edit of the in-memory map |
| UserStores.UserPreference.DisableTask | internal/models/user.go:44-47 | one edit of the in-memory map |
| UserStores.UserStore.GetUserPreference | internal/storage/user_store.go:40-94 | a fresh object with exactly the stored tasks, the stored settings that parse, and the stored stamp, or the present time without a readable one; an error for an empty id or a failed read |
| UserStores.UserStore.SaveUserPreference | internal/storage/user_store.go:97-179 | the save step of the specification; on an error the effect of some first commands of its pipeline; an empty id is refused without effect |
| UserStores.UserStore.EnableTaskForUser | internal/storage/user_store.go:182-219 | the enable step; on an error the effect of some first commands; empty ids are refused without effect |
| UserStores.UserStore.DisableTaskForUser | internal/storage/user_store.go:222-256 | the disable step; on an error the effect of some first commands; empty ids are refused without effect |
| UserStores.UserStore.DeleteUser | internal/storage/user_store.go:327-368 | the delete step; on an error the effect of some first commands; nothing, reported as success, when the user's tasks cannot be read |
| UserStores.UserStore.GetUsersWithEnabledTask | internal/storage/user_store.go:259-271 | the members of the task's index set, each once; none for an empty id or a failed read |
| UserStores.UserStore.GetUsersByTaskPattern | internal/storage/user_store.go:371-395 | every listed, readable user with a matching enabled task, each once; nobody is missed in a sound store, and under an exact index as well they are exactly the readable part of the union of the matching tasks' index sets |
| UserStores.RewriteTask | internal/storage/user_store.go:40-166 | get, edit and save on the objects do what the direct operation does and keep the index exact |
| Interleaving.InterleavingIff | internal/storage/user_store.go:187-244 | for any list of enable and disable operations, every interleaving of their single commands ends, from every store, in the hashes, index and all users of every sequential order if and only if no (user, task) pair is both enabled and disabled; otherwise interleavings are not even serializable |
| Interleaving.InterleavedIsSequential | internal/storage/user_store.go:187-244 | the same on the flat database, for operations without such a contradiction |
| Interleaving.ContradictionDiverges | internal/storage/user_store.go:187-244 | with a contradiction in any such list, one interleaving ends from every store as no sequential order does |
| Cells.CellAfter | internal/storage/user_store.go:187-244 | a cell whose writers agree ends with their value in any command order |
| Recovery.RetryRepairs | internal/storage/user_store.go:97-256 | attempts at a save, enable or disable that broke off, however many, whenever made and after whichever commands, are made good by one that goes through: same hashes, stamps, index and all users as if nothing had failed |
| Recovery.DeleteRetryIff | internal/storage/user_store.go:333-359 | repeating a broken delete makes it good if and only if it never began or had removed every index entry of the user |
| Recovery.BrokenEnableSoundIff | internal/storage/user_store.go:187-206 | an enable that broke off after k commands leaves everybody findable if and only if k is 0, or each of the two set entries was there before or was sent |
| Recovery.BrokenDisableSound | internal/storage/user_store.go:227-243 | a disable leaves everybody findable wherever it breaks off |
| Recovery.BrokenDeleteSound | internal/storage/user_store.go:340-359 | so does a delete |
| Recovery.BrokenSaveSoundIff | internal/storage/user_store.go:107-164 | a save that broke off leaves everybody findable if and only if its tasks were not written, or the user is in both sets for every task saved as enabled, from before or because the entry was sent |
| Pattern.OneStarPattern | internal/storage/user_store.go:407-412 | with one star every glob match is accepted, and the two differ exactly when prefix and suffix both fit but overlap |
| Pattern.LiteralPattern | internal/storage/user_store.go:403-405 | without a star the match is equality, as for a glob |
| Pattern.ManyStarsMatchNothing | internal/storage/user_store.go:408-414 | two stars or more match nothing |
| Pattern.OverlapExample | internal/storage/user_store.go:409-412 | a string too short for the glob that is accepted |
| Jobs.AttemptIdsDistinct | internal/worker/worker.go:336 | ids of any attempts of any lineages with roots of one length are distinct |
| Jobs.AttemptIdsCollideIff | internal/worker/worker.go:336 | attempts of two lineages share an id if and only if they are the same attempt of one lineage, or one root is itself that attempt's id of the other |
| Backoff.DelaysIntendedIff | internal/worker/worker.go:362-377 | in wrapping arithmetic the delays of attempts 1 to n are all min(base * 2^(a-1), max) if and only if base * 2^(n-1) fits 64 bits |
| Backoff.FirstMisfitIsNegative | internal/worker/worker.go:362-377 | the first attempt whose product does not fit gets a negative delay |
| Backoff.OneSecondMisfit | internal/worker/worker.go:362-377 | with a base of one second that is attempt 35, whatever the cap |
| Backoff.DelaysNeverShrink | internal/worker/worker.go:362-377 | while it fits, delays never shrink with the attempt and stay capped once capped |
| Backoff.TotalDelayBound | internal/worker/worker.go:362-377 | the first k delays sum to at most min(base * (2^k - 1), k * max) |
| Backoff.OneSecondBase | internal/worker/worker.go:367-369 | with a base of one second the product fits exactly up to attempt 34 |
| Backoff.LateAttemptsDoNotWait | internal/worker/worker.go:368-369 | from attempt 65 on the delay is zero |
| Lineages.Retry | internal/worker/worker.go:324-347 | pushing an owed retry keeps one live message per lineage, its attempt number, its id and the carried fields |
| WorkerPool.RunConserves | internal/worker/worker.go:148-347 | over every interleaving: each message in exactly one place; at most one unacknowledged per lineage, its attempt 1 plus the retryable failures; ids never collide; later messages of a lineage are later attempts at the same work |
| Histories.RetriesFollowFailures | internal/worker/worker.go:227-231 | in every run, a message followed by another of its lineage was executed and its request ended in a network error or a status of 500 or above |
| Histories.FailuresAreRetried | internal/worker/worker.go:218-231 | and every such failure is: a message whose request ended in a network error or a status of 500 or above is still to be acknowledged or owed its retry, or its push failed, or a later message of its lineage is the next attempt |
| Histories.RetriesWait | internal/worker/worker.go:324-377 | in every run no worker finds a retry ready earlier than min(base * 2^(a-1), max) after its push, while the product fits, or than the fixed delay without exponential backoff |
| Histories.DroppedEarlyIff | internal/worker/worker.go:169-177 | in every run exactly the messages that some worker found not due yet are dropped early |
| Histories.ExecutionsFollowChecks | internal/worker/worker.go:168-207 | in every run a worker starts executing a message only after it found it due and was then granted a token for it |
| WorkerPool.RunKeepsInv | internal/worker/worker.go:148-234 | the invariant behind it, including that workers hold distinct messages |
| ExecutionBound.GrantsConserved | internal/worker/worker.go:180-207 | every grant is spent on exactly one execution, wasted on an unknown type, or still held |
| ExecutionBound.PoolRunsBucket | internal/worker/worker.go:180-192 | the workers' interleaved calls drive the bucket as one run of the script |
| ExecutionBound.ExecutionsBounded | internal/worker/worker.go:148-207 | for any pool size and interleaving, fewer than poolSize + burst + floor((t - s) * limit / window) executions start between two bucket calls at s <= t, with a monotone clock and no loss of the hash in between |
| ExecutionBound.ExecutionsBoundedAcrossExpiry | internal/worker/worker.go:148-207 | with burst <= 2 * limit and agreeing clocks that do not go back, the same bound stands however often the hash expires in between |
| Pools.Pool.ProcessJob | internal/worker/worker.go:148-234 | one pass takes one available message, if any: an early one is dropped, one without a grant stays in flight, one of an unknown type is dropped, any other is executed; it succeeds exactly on a status from 200 to 299, and exactly a network error or a status of 500 or above pushes the next attempt, unless the push fails; the pass keeps the pool's invariant and is a sequence of the machine's steps |
| Pools.Pool.ScheduleRetry | internal/worker/worker.go:324-360 | pushes the next attempt with its id, the same work, and an execution time min(base * 2^(a-1), max) after the push while the product fits, or the fixed delay; nothing when the push fails |
| Pools.StepsReachProcessed | internal/worker/worker.go:148-234 | the pass as one formula is what the machine's steps reach |

## Left out

- Leader election: every scheduler writes the same value, so it does not exclude; one scheduler is modelled.
- Daylight-saving transitions and loading of zone data: zones are fixed offsets.
- Interleaving of saves and deletes at command level: the code does not make them atomic; they are proved as atomic operations, and as pipelines that may break off.
- Jobs pulled early are lost and retries are unlimited: the model does as the code does, so delivery and a retry limit are not claimed.
- HTTP requests: only the outcome of an execution enters.
- JSON encoding of settings and messages, YAML parsing, logging, health and metrics, signal handling, statistics and simple getters.
- Schedulers.Scheduler.CheckAndScheduleTasks: assumes that the year has four digits.
- Progress.ProgressIff: says nothing of monthly values above 6.8e12, whose days wrap at least once and, as months differ in length, to a date that depends on the starting month.
- Progress.MonotoneIff: says nothing of daily and weekly values whose wrapped product leads back or by less than a day.
- Intervals.MonthlyKeepsDay: like the other results about where monthly and weekly tasks land, for values whose dates stay within Go's time; beyond, the examples of Progress show the landing fail.
- Pools.Pool.ProcessJob: one pass without interference, with a Pull and an Ack that succeed; interleaved passes are covered by the steps of WorkerPool, under the same assumption.
- Rfc3339.RoundTrip: parses only the whole-second shape the scheduler writes.
- Registry.ValidateTask: returns the task with its defaults where the code writes them into its argument.
- TokenBucket.DeniedCallInvisibleIff: the hash neither expires nor is reset during the run; the effect of expiry is TokenBucket.ExpiryUnobservableIff.
