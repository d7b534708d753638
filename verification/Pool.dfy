/** processJob as a worker runs it when no other worker gets in between, on the pool's shared
    state: its effect in one formula, and the steps of the state machine that amount to it. */
module Pools {
  import opened Arith
  import B = Backoff
  import opened Histories
  import opened Jobs
  import T = TokenBucket
  import opened WorkerPool
  import opened Wrappers

  /** What one pass through processJob meets: clocks, failures, the registry and the HTTP reply. */
  datatype Surroundings = Surroundings(
    readyNs: int, now: int, limiterFails: bool, applied: bool, registered: set<string>,
    reply: Reply, retryNow: int, retryLater: int, pushFails: bool)

  /** Execution, acknowledgement and a possible retry of a message already out of flight. */
  function Completed(cfg: Settings, s: State, m: nat, env: Surroundings): State
    requires m < |s.jobs| && m < |s.roots|
  {
    var outcome := Classify(env.reply);
    var done := s.(executed := s.executed[m := outcome]);
    if outcome != Failed(true) || env.pushFails then done
    else
      var retry := RetryJob(s.jobs[m], env.retryNow, env.retryLater, RetryDelay(cfg, s.jobs[m].attempt));
      done.(jobs := s.jobs + [retry], roots := s.roots + [s.roots[m]], available := s.available + {|s.jobs|})
  }

  /** The state after a worker has passed message m through processJob. */
  function Processed(cfg: Settings, s: State, m: nat, env: Surroundings): State
    requires cfg.bucket.Valid() && m < |s.jobs| && m < |s.roots|
  {
    var call := T.Call(env.now, 1);
    var taken := s.(available := s.available - {m});
    var asked := Some(T.After(cfg.bucket, s.bucket, call));
    if env.readyNs < s.jobs[m].executeAfter then
      taken.(droppedEarly := s.droppedEarly + {m})
    else if env.limiterFails then
      taken.(inFlight := s.inFlight + {m}, bucket := if env.applied then asked else s.bucket)
    else if !T.Allows(cfg.bucket, s.bucket, call) then
      taken.(inFlight := s.inFlight + {m}, bucket := asked)
    else if s.jobs[m].taskType !in env.registered then
      taken.(droppedUnknown := s.droppedUnknown + {m}, bucket := asked)
    else
      Completed(cfg, taken.(bucket := asked), m, env)
  }

  // ----- the same effect as steps of the pool's machine -----

  function StepsFromRunning(w: nat, env: Surroundings): seq<Event> {
    [Finish(w, env.reply), Event.Ack(w)]
    + if Classify(env.reply) == Failed(true) then [PushRetry(w, env.retryNow, env.retryLater, !env.pushFails)] else []
  }

  function StepsFromReady(cfg: Settings, s: State, w: nat, m: nat, env: Surroundings): seq<Event>
    requires cfg.bucket.Valid() && m < |s.jobs|
  {
    if env.limiterFails then [AskFails(w, env.now, env.applied)]
    else
      [Ask(w, env.now)]
      + if !T.Allows(cfg.bucket, s.bucket, T.Call(env.now, 1)) then []
        else if s.jobs[m].taskType !in env.registered then [UnknownType(w)]
        else [Begin(w)] + StepsFromRunning(w, env)
  }

  function Steps(cfg: Settings, s: State, w: nat, m: nat, env: Surroundings): seq<Event>
    requires cfg.bucket.Valid() && m < |s.jobs|
  {
    [Event.Pull(w, m), CheckReady(w, env.readyNs)]
    + if env.readyNs < s.jobs[m].executeAfter then [] else StepsFromReady(cfg, s, w, m, env)
  }

  ghost predicate Reaches(cfg: Settings, s: State, es: seq<Event>, final: State)
    requires cfg.bucket.Valid()
  {
    ValidRun(cfg, s, es) && Run(cfg, s, es) == final
  }

  lemma StepThen(cfg: Settings, s: State, e: Event, rest: seq<Event>, final: State)
    requires cfg.bucket.Valid() && Enabled(s, e) && Reaches(cfg, Next(cfg, s, e), rest, final)
    ensures Reaches(cfg, s, [e] + rest, final)
  {
    assert ([e] + rest)[1..] == rest;
  }

  lemma RunningReaches(cfg: Settings, s: State, w: nat, m: nat, env: Surroundings)
    requires cfg.bucket.Valid() && w < |s.workers| && m < |s.jobs| && m < |s.roots|
    requires s.workers[w] == Running(m) && m !in s.owed
    ensures Reaches(cfg, s, StepsFromRunning(w, env),
                    Completed(cfg, At(s, w, Idle).(inFlight := s.inFlight - {m}), m, env))
  {
    var final := Completed(cfg, At(s, w, Idle).(inFlight := s.inFlight - {m}), m, env);
    var finish, ack := Finish(w, env.reply), Event.Ack(w);
    var s1 := Next(cfg, s, finish);
    var s2 := Next(cfg, s1, ack);
    if Classify(env.reply) == Failed(true) {
      var push := PushRetry(w, env.retryNow, env.retryLater, !env.pushFails);
      assert (s.owed + {m}) - {m} == s.owed;
      assert Next(cfg, s2, push) == final;
      StepThen(cfg, s2, push, [], final);
      assert [push] + [] == [push];
      StepThen(cfg, s1, ack, [push], final);
      StepThen(cfg, s, finish, [ack] + [push], final);
      assert [finish] + ([ack] + [push]) == StepsFromRunning(w, env);
    } else {
      assert s2 == final;
      StepThen(cfg, s1, ack, [], final);
      assert [ack] + [] == [ack];
      StepThen(cfg, s, finish, [ack], final);
      assert [finish] + [ack] == StepsFromRunning(w, env);
    }
  }

  /** The state after processJob when the message was found ready. */
  function AfterReady(cfg: Settings, s: State, w: nat, m: nat, env: Surroundings): State
    requires cfg.bucket.Valid() && w < |s.workers| && m < |s.jobs| && m < |s.roots|
  {
    var call := T.Call(env.now, 1);
    var idle, asked := At(s, w, Idle), Some(T.After(cfg.bucket, s.bucket, call));
    if env.limiterFails then idle.(bucket := if env.applied then asked else s.bucket)
    else if !T.Allows(cfg.bucket, s.bucket, call) then idle.(bucket := asked)
    else if s.jobs[m].taskType !in env.registered then
      idle.(bucket := asked, inFlight := s.inFlight - {m}, droppedUnknown := s.droppedUnknown + {m})
    else Completed(cfg, idle.(bucket := asked, inFlight := s.inFlight - {m}), m, env)
  }

  lemma GrantedReaches(cfg: Settings, s: State, w: nat, m: nat, env: Surroundings)
    requires cfg.bucket.Valid() && w < |s.workers| && m < |s.jobs| && m < |s.roots|
    requires s.workers[w] == Granted(m) && m !in s.owed
    ensures Reaches(cfg, s, [Begin(w)] + StepsFromRunning(w, env),
                    Completed(cfg, At(s, w, Idle).(inFlight := s.inFlight - {m}), m, env))
  {
    var s1 := Next(cfg, s, Begin(w));
    RunningReaches(cfg, s1, w, m, env);
    assert At(s1, w, Idle) == At(s, w, Idle);
    StepThen(cfg, s, Begin(w), StepsFromRunning(w, env),
             Completed(cfg, At(s, w, Idle).(inFlight := s.inFlight - {m}), m, env));
  }

  lemma ReadyReaches(cfg: Settings, s: State, w: nat, m: nat, env: Surroundings)
    requires cfg.bucket.Valid() && w < |s.workers| && m < |s.jobs| && m < |s.roots|
    requires s.workers[w] == Ready(m) && m !in s.owed
    ensures Reaches(cfg, s, StepsFromReady(cfg, s, w, m, env), AfterReady(cfg, s, w, m, env))
  {
    var final := AfterReady(cfg, s, w, m, env);
    if env.limiterFails {
      var e := AskFails(w, env.now, env.applied);
      StepThen(cfg, s, e, [], final);
      assert [e] + [] == [e];
    } else {
      var e := Ask(w, env.now);
      var s1 := Next(cfg, s, e);
      if !T.Allows(cfg.bucket, s.bucket, T.Call(env.now, 1)) {
        StepThen(cfg, s, e, [], final);
      } else if s.jobs[m].taskType !in env.registered {
        StepThen(cfg, s1, UnknownType(w), [], final);
        assert [UnknownType(w)] + [] == [UnknownType(w)];
        StepThen(cfg, s, e, [UnknownType(w)], final);
      } else {
        GrantedReaches(cfg, s1, w, m, env);
        StepThen(cfg, s, e, [Begin(w)] + StepsFromRunning(w, env), final);
      }
    }
  }

  lemma EarlyReaches(cfg: Settings, s: State, w: nat, m: nat, env: Surroundings)
    requires cfg.bucket.Valid() && w < |s.workers| && s.workers[w] == Idle && m in s.available
    requires m < |s.jobs| && m < |s.roots| && m !in s.inFlight
    requires env.readyNs < s.jobs[m].executeAfter
    ensures Reaches(cfg, s, Steps(cfg, s, w, m, env), Processed(cfg, s, m, env))
  {
    var final := Processed(cfg, s, m, env);
    var pull, check := Event.Pull(w, m), CheckReady(w, env.readyNs);
    var s1 := Next(cfg, s, pull);
    assert (s.inFlight + {m}) - {m} == s.inFlight;
    assert s.workers[w := Pulled(m)][w := Idle] == s.workers;
    StepThen(cfg, s1, check, [], final);
    assert [check] + [] == [check];
    StepThen(cfg, s, pull, [check], final);
    assert [pull] + [check] == Steps(cfg, s, w, m, env);
  }

  /** The state once the worker has found the message ready. */
  function Taken(s: State, w: nat, m: nat): State
    requires w < |s.workers|
  {
    At(s, w, Ready(m)).(available := s.available - {m}, inFlight := s.inFlight + {m})
  }

  lemma AfterReadyIsProcessed(cfg: Settings, s: State, w: nat, m: nat, env: Surroundings)
    requires cfg.bucket.Valid() && w < |s.workers| && s.workers[w] == Idle
    requires m < |s.jobs| && m < |s.roots| && m !in s.inFlight && s.jobs[m].executeAfter <= env.readyNs
    ensures AfterReady(cfg, Taken(s, w, m), w, m, env) == Processed(cfg, s, m, env)
  {
    assert (s.inFlight + {m}) - {m} == s.inFlight;
    assert s.workers[w := Ready(m)][w := Idle] == s.workers;
  }

  lemma TakenReaches(cfg: Settings, s: State, w: nat, m: nat, env: Surroundings)
    requires cfg.bucket.Valid() && w < |s.workers| && s.workers[w] == Idle && m in s.available
    requires m < |s.jobs| && m < |s.roots| && m !in s.inFlight && m !in s.owed
    requires s.jobs[m].executeAfter <= env.readyNs
    ensures Reaches(cfg, s, Steps(cfg, s, w, m, env), Processed(cfg, s, m, env))
  {
    var final := Processed(cfg, s, m, env);
    var pull, check := Event.Pull(w, m), CheckReady(w, env.readyNs);
    var rest := StepsFromReady(cfg, s, w, m, env);
    var s1 := Next(cfg, s, pull);
    assert s.workers[w := Pulled(m)][w := Ready(m)] == s.workers[w := Ready(m)];
    assert Next(cfg, s1, check) == Taken(s, w, m);
    ReadyReaches(cfg, Taken(s, w, m), w, m, env);
    AfterReadyIsProcessed(cfg, s, w, m, env);
    assert rest == StepsFromReady(cfg, Taken(s, w, m), w, m, env);
    StepThen(cfg, s1, check, rest, final);
    StepThen(cfg, s, pull, [check] + rest, final);
    assert [pull] + ([check] + rest) == Steps(cfg, s, w, m, env);
  }

  /** From a reachable state, the formula is what the machine's steps do, so it keeps the pool's
      invariant. */
  lemma StepsReachProcessed(cfg: Settings, s: State, w: nat, m: nat, env: Surroundings, idLength: nat)
    requires cfg.bucket.Valid() && Inv(s, idLength) && w < |s.workers| && s.workers[w] == Idle && m in s.available
    ensures m < |s.jobs| && m < |s.roots| && m !in s.inFlight
    ensures Reaches(cfg, s, Steps(cfg, s, w, m, env), Processed(cfg, s, m, env))
    ensures Inv(Processed(cfg, s, m, env), idLength)
  {
    assert PlacedOnce(s, m);
    assert m in s.owed ==> m in s.executed;
    if env.readyNs < s.jobs[m].executeAfter {
      EarlyReaches(cfg, s, w, m, env);
    } else {
      TakenReaches(cfg, s, w, m, env);
    }
    RunKeepsInv(cfg, s, Steps(cfg, s, w, m, env), idLength);
  }

  // ----- what the pass does with the message -----

  /** Where the message goes and what it leaves behind, by what the pass meets. */
  ghost predicate Settled(cfg: Settings, s: State, m: nat, env: Surroundings, after: State)
    requires cfg.bucket.Valid() && m < |s.jobs|
  {
    var job, call := s.jobs[m], T.Call(env.now, 1);
    var granted := !env.limiterFails && T.Allows(cfg.bucket, s.bucket, call);
    && after.available - {|s.jobs|} == s.available - {m} - {|s.jobs|}
    && (env.readyNs < job.executeAfter ==>
          && m in after.droppedEarly && after.inFlight == s.inFlight && after.jobs == s.jobs
          && after.bucket == s.bucket)
    && (job.executeAfter <= env.readyNs ==>
          && after.droppedEarly == s.droppedEarly
          && (!granted ==> after.inFlight == s.inFlight + {m} && after.jobs == s.jobs)
          && (granted && job.taskType !in env.registered ==>
                m in after.droppedUnknown && after.inFlight == s.inFlight && after.jobs == s.jobs)
          && (granted && job.taskType in env.registered ==> Executed(cfg, s, m, env, after)))
  }

  /** Executed and acknowledged; a success is a 2xx status, a retry follows a network error or a status
      of 500 or above unless its push fails, and waits for the delay of its attempt. */
  ghost predicate Executed(cfg: Settings, s: State, m: nat, env: Surroundings, after: State)
    requires m < |s.jobs|
  {
    var job := s.jobs[m];
    var retried := (env.reply.NetworkError? || (env.reply.Status? && 500 <= env.reply.code)) && !env.pushFails;
    && m in after.executed && after.inFlight == s.inFlight
    && (after.executed[m] == Succeeded <==> env.reply.Status? && 200 <= env.reply.code <= 299)
    && |after.jobs| == |s.jobs| + (if retried then 1 else 0) && s.jobs <= after.jobs
    && (retried ==>
          && |s.jobs| in after.available && NextAttempt(job, after.jobs[|s.jobs|], env)
          && Waits(cfg, job.attempt, after.jobs[|s.jobs|].executeAfter - env.retryLater))
  }

  predicate NextAttempt(job: Job, next: Job, env: Surroundings) {
    && next.id == job.id + "_retry_" + Decimal(job.attempt + 1) && next.attempt == job.attempt + 1
    && next.taskType == job.taskType && next.user == job.user && next.priority == job.priority
    && next.payload == job.payload && next.createdAt == job.createdAt && next.scheduledAt == env.retryNow
  }

  /** The documented delay while the product fits, or the fixed one. */
  ghost predicate Waits(cfg: Settings, attempt: int, delay: int) {
    && (cfg.exponential && 0 < cfg.baseDelay <= cfg.maxDelay <= MAX_INT64 && B.Fits(cfg.baseDelay, attempt) ==>
          delay == Min(B.Doubled(cfg.baseDelay, attempt - 1), cfg.maxDelay))
    && (!cfg.exponential ==> delay == cfg.retryDelay)
  }

  lemma DelayWaits(cfg: Settings, attempt: int)
    ensures Waits(cfg, attempt, RetryDelay(cfg, attempt))
  {
    if 0 < cfg.baseDelay <= cfg.maxDelay <= MAX_INT64 {
      DelayMeans(cfg, attempt);
    }
  }

  lemma CompletedExecutes(cfg: Settings, s: State, m: nat, env: Surroundings, before: State)
    requires m < |s.jobs| && m < |s.roots| && before.jobs == s.jobs && before.inFlight == s.inFlight
    ensures Executed(cfg, before, m, env, Completed(cfg, s, m, env))
  {
    DelayWaits(cfg, s.jobs[m].attempt);
  }

  lemma PassSettles(cfg: Settings, s: State, m: nat, env: Surroundings)
    requires cfg.bucket.Valid() && m < |s.jobs| && m < |s.roots|
    ensures Settled(cfg, s, m, env, Processed(cfg, s, m, env))
  {
    var call := T.Call(env.now, 1);
    var taken := s.(available := s.available - {m}, bucket := Some(T.After(cfg.bucket, s.bucket, call)));
    CompletedExecutes(cfg, taken, m, env, s);
  }

  class Pool {
    const cfg: Settings
    const idLength: nat
    var bucket: Option<T.Bucket>
    var jobs: seq<Job>
    var available: set<nat>
    var inFlight: set<nat>
    var workers: seq<Worker>
    ghost var roots: seq<string>
    ghost var droppedEarly: set<nat>
    ghost var droppedUnknown: set<nat>
    ghost var executed: map<nat, Outcome>
    ghost var owed: set<nat>

    ghost function Current(): State
      reads this
    {
      State(bucket, jobs, roots, available, inFlight, droppedEarly, droppedUnknown, executed, owed, workers)
    }

    ghost predicate Valid()
      reads this
    {
      cfg.bucket.Valid() && Inv(Current(), idLength)
    }

    constructor (cfg: Settings, poolSize: nat, idLength: nat)
      requires cfg.bucket.Valid()
      ensures Valid() && Current() == Init(poolSize)
      ensures this.cfg == cfg && this.idLength == idLength
    {
      this.cfg, this.idLength, this.bucket := cfg, idLength, None;
      this.jobs, this.roots, this.available, this.inFlight := [], [], {}, {};
      this.droppedEarly, this.droppedUnknown, this.executed, this.owed := {}, {}, map[], {};
      this.workers := seq(poolSize, _ => Idle);
      new;
      InitInv(poolSize, idLength);
    }

    /** One pass of an idle worker. */
    method ProcessJob(w: nat, env: Surroundings) returns (pulled: Option<nat>)
      requires Valid() && w < |workers| && workers[w] == Idle
      modifies this
      ensures Valid()
      ensures pulled.None? <==> old(available) == {}
      ensures pulled.None? ==> Current() == old(Current())
      ensures pulled.Some? && pulled.value < |old(jobs)| ==>
                var m, job, reply := pulled.value, old(jobs)[pulled.value], env.reply;
                (&& job.executeAfter <= env.readyNs && !env.limiterFails && job.taskType in env.registered
                 && T.Allows(cfg.bucket, old(bucket), T.Call(env.now, 1))) ==>
                  && |jobs| == |old(jobs)| + One((reply.NetworkError? || (reply.Status? && 500 <= reply.code))
                                                 && !env.pushFails)
                  && m in executed && (executed[m] == Succeeded <==> reply.Status? && 200 <= reply.code <= 299)
      ensures pulled.Some? ==>
                && pulled.value in old(available)
                && pulled.value < |old(jobs)| && pulled.value < |old(roots)|
                && Current() == Processed(cfg, old(Current()), pulled.value, env)
                && Settled(cfg, old(Current()), pulled.value, env, Current())
                && Reaches(cfg, old(Current()), Steps(cfg, old(Current()), w, pulled.value, env), Current())
    {
      if |available| == 0 {
        return None;
      }
      var m :| m in available;
      pulled := Some(m);
      StepsReachProcessed(cfg, Current(), w, m, env, idLength);
      PassSettles(cfg, Current(), m, env);
      Pass(m, env);
    }

    /** The pulled message on its way through processJob. */
    method Pass(m: nat, env: Surroundings)
      requires cfg.bucket.Valid() && m < |jobs| && m < |roots| && m !in inFlight
      modifies this
      ensures Current() == Processed(cfg, old(Current()), m, env)
    {
      ghost var before := inFlight;
      available, inFlight := available - {m}, inFlight + {m};
      assert inFlight - {m} == before;
      var job := jobs[m];
      if env.readyNs < job.executeAfter {
        inFlight, droppedEarly := inFlight - {m}, droppedEarly + {m};
        return;
      }
      var call := T.Call(env.now, 1);
      var tokens := bucket;
      if env.limiterFails {
        if env.applied {
          bucket := Some(T.After(cfg.bucket, tokens, call));
        }
        return;
      }
      bucket := Some(T.After(cfg.bucket, tokens, call));
      if !T.Allows(cfg.bucket, tokens, call) {
        return;
      }
      if job.taskType !in env.registered {
        inFlight, droppedUnknown := inFlight - {m}, droppedUnknown + {m};
        return;
      }
      var outcome := Classify(env.reply);
      inFlight, executed := inFlight - {m}, executed[m := outcome];
      if ShouldRetry(outcome, cfg.maxRetries) {
        ScheduleRetry(job, roots[m], env);
      }
    }

    /** Pushes the next attempt after its delay; a failed push ends the lineage. */
    method ScheduleRetry(job: Job, ghost root: string, env: Surroundings)
      modifies this`jobs, this`roots, this`available
      ensures env.pushFails ==> jobs == old(jobs) && roots == old(roots) && available == old(available)
      ensures !env.pushFails ==>
                && jobs == old(jobs) + [RetryJob(job, env.retryNow, env.retryLater, RetryDelay(cfg, job.attempt))]
                && roots == old(roots) + [root] && available == old(available) + {|old(jobs)|}
      ensures !env.pushFails ==>
                var retry := jobs[|old(jobs)|];
                && retry.id == job.id + "_retry_" + Decimal(job.attempt + 1) && retry.attempt == job.attempt + 1
                && retry.taskType == job.taskType && retry.user == job.user && retry.priority == job.priority
                && retry.payload == job.payload && retry.createdAt == job.createdAt
                && retry.scheduledAt == env.retryNow
      ensures (&& !env.pushFails && cfg.exponential && 0 < cfg.baseDelay <= cfg.maxDelay <= MAX_INT64
               && B.Fits(cfg.baseDelay, job.attempt)) ==>
                jobs[|old(jobs)|].executeAfter
                == env.retryLater + Min(B.Doubled(cfg.baseDelay, job.attempt - 1), cfg.maxDelay)
      ensures !env.pushFails && !cfg.exponential ==> jobs[|old(jobs)|].executeAfter == env.retryLater + cfg.retryDelay
    {
      DelayWaits(cfg, job.attempt);
      var delay;
      if cfg.exponential {
        delay := B.Delay(cfg.baseDelay, cfg.maxDelay, job.attempt);
      } else {
        delay := cfg.retryDelay;
      }
      var retry := RetryJob(job, env.retryNow, env.retryLater, delay);
      if !env.pushFails {
        available := available + {|jobs|};
        jobs, roots := jobs + [retry], roots + [root];
      }
    }
  }
}
