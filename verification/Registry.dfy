/** Task definitions: validation with defaults, and loading a parsed file into the registry. */
module Registry {
  import opened GoTime
  import opened Intervals
  import opened Progress
  import opened Wrappers

  datatype TaskConfig = TaskConfig(endpoint: string, httpMethod: string, headers: map<string, string>, maxDuration: int)

  datatype TaskType = TaskType(
    id: string, name: string, description: string, interval: TaskInterval,
    timeout: int, retries: int, config: TaskConfig)

  /** What makes a definition acceptable, independent of the order of the checks. */
  predicate Acceptable(task: TaskType) {
    && task.id != "" && task.name != "" && 0 < task.timeout && 0 <= task.retries
    && task.interval.Valid() && task.config.endpoint != ""
  }

  function WithDefaults(task: TaskType): TaskType {
    task.(
      interval := task.interval.(timezone := if task.interval.timezone == "" then "UTC" else task.interval.timezone),
      config := task.config.(
        httpMethod := if task.config.httpMethod == "" then "POST" else task.config.httpMethod,
        maxDuration := if task.config.maxDuration <= 0 then task.timeout else task.config.maxDuration))
  }

  /** Defaults only fill gaps: what is given survives, what is not becomes UTC, POST and the timeout. */
  lemma DefaultsFillGaps(task: TaskType)
    ensures var fixed := WithDefaults(task);
            && fixed.id == task.id && fixed.name == task.name && fixed.description == task.description
            && fixed.timeout == task.timeout && fixed.retries == task.retries
            && fixed.interval.kind == task.interval.kind && fixed.interval.value == task.interval.value
            && fixed.interval.atTime == task.interval.atTime
            && fixed.config.endpoint == task.config.endpoint && fixed.config.headers == task.config.headers
            && fixed.interval.timezone == (if task.interval.timezone == "" then "UTC" else task.interval.timezone)
            && fixed.config.httpMethod == (if task.config.httpMethod == "" then "POST" else task.config.httpMethod)
            && fixed.config.maxDuration
               == if task.config.maxDuration <= 0 then task.timeout else task.config.maxDuration
  {
  }

  /** The tasks a file defines: of several definitions with one id the last one counts. */
  function Collected(defs: seq<TaskType>): map<string, TaskType> {
    if defs == [] then map[]
    else
      var last := defs[|defs| - 1];
      Collected(defs[..|defs| - 1])[last.id := WithDefaults(last)]
  }

  predicate LastWithId(defs: seq<TaskType>, k: nat)
    requires k < |defs|
  {
    forall j :: k < j < |defs| ==> defs[j].id != defs[k].id
  }

  /** The registry holds the last definition of every id, under that id. */
  lemma {:induction false} LastDefinitionWins(defs: seq<TaskType>, k: nat)
    requires k < |defs| && LastWithId(defs, k)
    ensures defs[k].id in Collected(defs) && Collected(defs)[defs[k].id] == WithDefaults(defs[k])
    decreases |defs|
  {
    var n := |defs| - 1;
    if k < n {
      assert defs[n].id != defs[k].id;
      assert LastWithId(defs[..n], k);
      LastDefinitionWins(defs[..n], k);
    }
  }

  /** And it holds nothing else. */
  lemma {:induction false} OnlyDefinedIds(defs: seq<TaskType>, id: string) returns (k: nat)
    requires id in Collected(defs)
    ensures k < |defs| && defs[k].id == id && LastWithId(defs, k)
    decreases |defs|
  {
    var n := |defs| - 1;
    if defs[n].id == id {
      k := n;
    } else {
      k := OnlyDefinedIds(defs[..n], id);
    }
  }

  /** Checks the interval; the second result is the interval with its default zone filled in. */
  method ValidateInterval(interval: TaskInterval) returns (error: Option<string>, fixed: TaskInterval)
    ensures error.None? <==> interval.Valid()
    ensures error.None? <==> && !interval.kind.Unknown? && 1 <= interval.value
                             && (interval.atTime.Some? ==> && 0 <= interval.atTime.value.hour <= 23
                                                           && 0 <= interval.atTime.value.minute <= 59)
    ensures error.None? ==>
              fixed == interval.(timezone := if interval.timezone == "" then "UTC" else interval.timezone)
    ensures error.None? ==> fixed.Valid() && fixed.timezone != ""
  {
    fixed := interval;
    if interval.kind.Unknown? {
      return Some("invalid interval type: " + interval.kind.name), fixed;
    }
    if interval.value <= 0 {
      return Some("interval value must be positive"), fixed;
    }
    if interval.timezone == "" {
      fixed := fixed.(timezone := "UTC");
    }
    if interval.atTime.Some? {
      var at := interval.atTime.value;
      if at.hour < 0 || at.hour > 23 {
        return Some("invalid hour"), fixed;
      }
      if at.minute < 0 || at.minute > 59 {
        return Some("invalid minute"), fixed;
      }
    }
    error := None;
  }

  method ValidateTask(task: TaskType) returns (error: Option<string>, fixed: TaskType)
    ensures error.None? <==> Acceptable(task)
    ensures error.None? ==> task.id != "" && task.name != "" && 0 < task.timeout && 0 <= task.retries
    ensures error.None? ==> task.config.endpoint != "" && task.interval.Valid()
    ensures error.None? <== && task.id != "" && task.name != "" && 0 < task.timeout && 0 <= task.retries
                            && task.config.endpoint != "" && task.interval.Valid()
    ensures error.None? ==> fixed == WithDefaults(task) && Acceptable(fixed)
  {
    fixed := task;
    if task.id == "" {
      return Some("task ID is required"), fixed;
    }
    if task.name == "" {
      return Some("task name is required"), fixed;
    }
    if task.timeout <= 0 {
      return Some("task timeout must be positive"), fixed;
    }
    if task.retries < 0 {
      return Some("task retries cannot be negative"), fixed;
    }
    var intervalError, interval := ValidateInterval(task.interval);
    fixed := fixed.(interval := interval);
    if intervalError.Some? {
      return Some("invalid interval: " + intervalError.value), fixed;
    }
    if task.config.endpoint == "" {
      return Some("task endpoint is required"), fixed;
    }
    if task.config.httpMethod == "" {
      fixed := fixed.(config := fixed.config.(httpMethod := "POST"));
    }
    if task.config.maxDuration <= 0 {
      fixed := fixed.(config := fixed.config.(maxDuration := task.timeout));
    }
    error := None;
  }

  /** A registered type moves forward from every storable instant in every zone exactly when its
      wrapped product moves forward and stays in time. */
  lemma RegisteredProgressIff(task: TaskType)
    requires Acceptable(task)
    requires task.interval.kind.Monthly? ==> task.interval.value <= MONTHS_WITHIN_TWO_TURNS
    ensures (forall offset: Offset, from | Storable(from) ::
               from < NextExecution(WithDefaults(task).interval, offset, from))
       <==> MovesForward(task.interval) && StaysInTime(task.interval)
  {
    ProgressIff(WithDefaults(task).interval);
  }

  class TaskRegistry {
    var tasks: map<string, TaskType>

    /** Every registered task is acceptable and stored under its own id. */
    ghost predicate Valid()
      reads this
    {
      forall id <- tasks :: tasks[id].id == id && Acceptable(tasks[id])
    }

    constructor ()
      ensures Valid() && tasks == map[]
    {
      tasks := map[];
    }

    /** All definitions or none: one that fails leaves the registry as it was. */
    method LoadFromFile(defs: seq<TaskType>) returns (error: Option<string>)
      requires Valid()
      modifies this
      ensures Valid()
      ensures error.None? <==> forall def <- defs :: Acceptable(def)
      ensures tasks == if error.None? then Collected(defs) else old(tasks)
    {
      var loaded: map<string, TaskType> := map[];
      var k := 0;
      while k < |defs|
        invariant 0 <= k <= |defs|
        invariant forall j :: 0 <= j < k ==> Acceptable(defs[j])
        invariant loaded == Collected(defs[..k])
        invariant forall id <- loaded :: loaded[id].id == id && Acceptable(loaded[id])
        invariant tasks == old(tasks)
      {
        var failure, task := ValidateTask(defs[k]);
        if failure.Some? {
          return Some("invalid task " + defs[k].id + ": " + failure.value);
        }
        assert defs[..k + 1][..k] == defs[..k];
        loaded := loaded[task.id := task];
        k := k + 1;
      }
      assert defs[..k] == defs;
      tasks := loaded;
      error := None;
    }
  }
}
