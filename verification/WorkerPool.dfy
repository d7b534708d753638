/** The worker pool as a state machine over the single steps of processJob, interleaved in any way
    between any number of workers, with an abstract job queue and the shared token bucket.

    The queue hands a message to one worker at a time; a message left unacknowledged becomes
    available again only when no worker holds it, and acknowledgements succeed. */
module WorkerPool {
  import opened Arith
  import B = Backoff
  import opened Jobs
  import opened Lineages
  import T = TokenBucket
  import opened Wrappers

  /** RetryBackoff "exponential" or anything else, with the delays it uses. */
  datatype Settings = Settings(
    bucket: T.Config, exponential: bool, retryDelay: int, baseDelay: int, maxDelay: int, maxRetries: int)

  /** Where a worker is within processJob, and with which message. */
  datatype Worker =
    | Idle
    | Pulled(m: nat)
    | Ready(m: nat)
    | Granted(m: nat)
    | Running(m: nat)
    | Finished(m: nat, outcome: Outcome)
    | RetryOwed(m: nat)

  datatype State = State(
    bucket: Option<T.Bucket>,
    jobs: seq<Job>,
    roots: seq<string>,
    available: set<nat>,
    inFlight: set<nat>,
    droppedEarly: set<nat>,
    droppedUnknown: set<nat>,
    executed: map<nat, Outcome>,
    owed: set<nat>,
    workers: seq<Worker>)
  {
    /** The retry bookkeeping of this state. */
    function ToLedger(): Ledger {
      Ledger(jobs, roots, available + inFlight, owed, set m | m in executed && executed[m] == Failed(true))
    }
  }

  function Init(poolSize: nat): State {
    State(None, [], [], {}, {}, {}, {}, map[], {}, seq(poolSize, _ => Idle))
  }

  datatype Event =
    | Submit(job: Job)
    | Pull(w: nat, m: nat)
    | CheckReady(w: nat, nowNs: int)
    | Ask(w: nat, now: int)
    | AskFails(w: nat, now: int, applied: bool)
    | Begin(w: nat)
    | UnknownType(w: nat)
    | Finish(w: nat, reply: Reply)
    | Ack(w: nat)
    | PushRetry(w: nat, now: int, later: int, ok: bool)
    | Lapse(m: nat)
    | BucketGone

  predicate HasWorker(s: State, w: nat) {
    w < |s.workers|
  }

  predicate Holds(s: State, m: nat) {
    exists w :: 0 <= w < |s.workers| && s.workers[w] != Idle && !s.workers[w].RetryOwed? && s.workers[w].m == m
  }

  predicate Enabled(s: State, e: Event) {
    match e
    case Submit(job) => job.attempt == 1 && job.id !in s.roots
    case Pull(w, m) => HasWorker(s, w) && s.workers[w].Idle? && m in s.available
    case CheckReady(w, _) => HasWorker(s, w) && s.workers[w].Pulled? && s.workers[w].m < |s.jobs|
    case Ask(w, _) => HasWorker(s, w) && s.workers[w].Ready?
    case AskFails(w, _, _) => HasWorker(s, w) && s.workers[w].Ready?
    case Begin(w) => HasWorker(s, w) && s.workers[w].Granted?
    case UnknownType(w) => HasWorker(s, w) && s.workers[w].Granted?
    case Finish(w, _) => HasWorker(s, w) && s.workers[w].Running?
    case Ack(w) => HasWorker(s, w) && s.workers[w].Finished?
    case PushRetry(w, _, _, _) =>
      HasWorker(s, w) && s.workers[w].RetryOwed? && s.workers[w].m < |s.jobs| && s.workers[w].m < |s.roots|
    case Lapse(m) => m in s.inFlight && !Holds(s, m)
    case BucketGone => true
  }

  function RetryDelay(cfg: Settings, attempt: int): int {
    if cfg.exponential then B.Delay(cfg.baseDelay, cfg.maxDelay, attempt) else cfg.retryDelay
  }

  function At(s: State, w: nat, worker: Worker): State
    requires HasWorker(s, w)
  {
    s.(workers := s.workers[w := worker])
  }

  function Next(cfg: Settings, s: State, e: Event): State
    requires cfg.bucket.Valid() && Enabled(s, e)
  {
    match e
    case Submit(job) =>
      s.(jobs := s.jobs + [job], roots := s.roots + [job.id], available := s.available + {|s.jobs|})
    case Pull(w, m) =>
      At(s, w, Pulled(m)).(available := s.available - {m}, inFlight := s.inFlight + {m})
    case CheckReady(w, nowNs) =>
      // A job that is not due yet is acknowledged and thereby dropped.
      var m := s.workers[w].m;
      if nowNs < s.jobs[m].executeAfter
      then At(s, w, Idle).(inFlight := s.inFlight - {m}, droppedEarly := s.droppedEarly + {m})
      else At(s, w, Ready(m))
    case Ask(w, now) =>
      var call := T.Call(now, 1);
      At(s, w, if T.Allows(cfg.bucket, s.bucket, call) then Granted(s.workers[w].m) else Idle)
        .(bucket := Some(T.After(cfg.bucket, s.bucket, call)))
    case AskFails(w, now, applied) =>
      // The error may come after the script ran.
      At(s, w, Idle).(bucket := if applied then Some(T.After(cfg.bucket, s.bucket, T.Call(now, 1))) else s.bucket)
    case Begin(w) => At(s, w, Running(s.workers[w].m))
    case UnknownType(w) =>
      var m := s.workers[w].m;
      At(s, w, Idle).(inFlight := s.inFlight - {m}, droppedUnknown := s.droppedUnknown + {m})
    case Finish(w, reply) => At(s, w, Finished(s.workers[w].m, Classify(reply)))
    case Ack(w) =>
      var m, outcome := s.workers[w].m, s.workers[w].outcome;
      var retry := ShouldRetry(outcome, cfg.maxRetries);
      At(s, w, if retry then RetryOwed(m) else Idle)
        .(inFlight := s.inFlight - {m}, executed := s.executed[m := outcome],
          owed := if retry then s.owed + {m} else s.owed)
    case PushRetry(w, now, later, ok) =>
      var m := s.workers[w].m;
      var done := At(s, w, Idle).(owed := s.owed - {m});
      if !ok then done
      else
        var job := RetryJob(s.jobs[m], now, later, RetryDelay(cfg, s.jobs[m].attempt));
        done.(jobs := s.jobs + [job], roots := s.roots + [s.roots[m]], available := s.available + {|s.jobs|})
    case Lapse(m) => s.(inFlight := s.inFlight - {m}, available := s.available + {m})
    case BucketGone => s.(bucket := None)
  }

  // ----- runs -----

  predicate ValidRun(cfg: Settings, s: State, es: seq<Event>)
    requires cfg.bucket.Valid()
    decreases es
  {
    es == [] || (Enabled(s, es[0]) && ValidRun(cfg, Next(cfg, s, es[0]), es[1..]))
  }

  function Run(cfg: Settings, s: State, es: seq<Event>): State
    requires cfg.bucket.Valid() && ValidRun(cfg, s, es)
    decreases es
  {
    if es == [] then s else Run(cfg, Next(cfg, s, es[0]), es[1..])
  }

  lemma {:induction false} RunSplit(cfg: Settings, s: State, xs: seq<Event>, ys: seq<Event>)
    requires cfg.bucket.Valid()
    ensures ValidRun(cfg, s, xs + ys) <==> ValidRun(cfg, s, xs) && ValidRun(cfg, Run(cfg, s, xs), ys)
    ensures ValidRun(cfg, s, xs + ys) ==> Run(cfg, s, xs + ys) == Run(cfg, Run(cfg, s, xs), ys)
    decreases xs
  {
    if xs == [] {
      assert xs + ys == ys;
    } else {
      assert (xs + ys)[0] == xs[0] && (xs + ys)[1..] == xs[1..] + ys;
      if Enabled(s, xs[0]) {
        RunSplit(cfg, Next(cfg, s, xs[0]), xs[1..], ys);
      }
    }
  }

  // ----- what every step keeps -----

  /** In how many places a message is. */
  function Places(s: State, m: nat): nat {
    One(m in s.available) + One(m in s.inFlight) + One(m in s.droppedEarly) + One(m in s.droppedUnknown)
    + One(m in s.executed)
  }

  predicate PlacedOnce(s: State, m: nat) {
    Places(s, m) == One(m < |s.jobs|)
  }

  /** A busy worker's message is in flight and nobody else's, or is owed a retry by this worker. */
  predicate WorkerOk(s: State, w: nat)
    requires w < |s.workers|
  {
    match s.workers[w]
    case Idle => true
    case RetryOwed(m) => m in s.owed
    case _ => s.workers[w].m in s.inFlight
  }

  predicate Apart(s: State, v: nat, w: nat)
    requires v < |s.workers| && w < |s.workers|
  {
    v != w && !s.workers[v].Idle? && !s.workers[w].Idle? ==> s.workers[v].m != s.workers[w].m
  }

  ghost predicate Placed(s: State) {
    forall m: nat :: PlacedOnce(s, m)
  }

  ghost predicate WorkersOk(s: State) {
    && (forall w: nat :: w < |s.workers| ==> WorkerOk(s, w))
    && (forall v: nat, w: nat :: v < |s.workers| && w < |s.workers| ==> Apart(s, v, w))
  }

  /** Owed messages were executed and failed. */
  ghost predicate OwedExecuted(s: State) {
    forall m <- s.owed :: m in s.executed && s.executed[m] == Failed(true)
  }

  ghost predicate Inv(s: State, idLength: nat) {
    Placed(s) && WorkersOk(s) && OwedExecuted(s) && s.ToLedger().Valid(idLength)
  }

  /** The scheduler's job ids all have one length, as UUIDs do. */
  predicate UniformId(e: Event, idLength: nat) {
    e.Submit? ==> |e.job.id| == idLength
  }

  lemma InitInv(poolSize: nat, idLength: nat)
    ensures Inv(Init(poolSize), idLength)
  {
  }

  lemma StepKeepsPlaced(cfg: Settings, s: State, e: Event, idLength: nat)
    requires cfg.bucket.Valid() && Inv(s, idLength) && Enabled(s, e)
    ensures Placed(Next(cfg, s, e)) && OwedExecuted(Next(cfg, s, e))
  {
    var s' := Next(cfg, s, e);
    if HasWorkerOf(e) {
      assert WorkerOk(s, e.w);
    }
    forall m: nat ensures PlacedOnce(s', m) {
      assert PlacedOnce(s, m);
      assert PlacedOnce(s, |s.jobs|);
      if HasWorkerOf(e) && !s.workers[e.w].Idle? {
        assert PlacedOnce(s, s.workers[e.w].m);
      }
    }
  }

  predicate HasWorkerOf(e: Event) {
    !e.Submit? && !e.Lapse? && !e.BucketGone?
  }

  lemma StepKeepsWorkers(cfg: Settings, s: State, e: Event, idLength: nat)
    requires cfg.bucket.Valid() && Inv(s, idLength) && Enabled(s, e)
    ensures WorkersOk(Next(cfg, s, e))
  {
    var s' := Next(cfg, s, e);
    if HasWorkerOf(e) {
      assert WorkerOk(s, e.w);
    }
    if e.Pull? {
      assert PlacedOnce(s, e.m);
    }
    forall v: nat | v < |s'.workers| ensures WorkerOk(s', v) {
      assert WorkerOk(s, v);
      if HasWorkerOf(e) && v != e.w {
        assert Apart(s, v, e.w);
      }
    }
    forall v: nat, w: nat | v < |s'.workers| && w < |s'.workers| ensures Apart(s', v, w) {
      assert Apart(s, v, w) && WorkerOk(s, v) && WorkerOk(s, w);
    }
  }

  lemma StepKeepsLedger(cfg: Settings, s: State, e: Event, idLength: nat)
    requires cfg.bucket.Valid() && Inv(s, idLength) && Enabled(s, e) && UniformId(e, idLength)
    ensures Next(cfg, s, e).ToLedger().Valid(idLength)
  {
    var s' := Next(cfg, s, e);
    var l, l' := s.ToLedger(), s'.ToLedger();
    if HasWorkerOf(e) {
      assert WorkerOk(s, e.w);
    }
    match e
    case Submit(job) =>
      Lineages.Submit(l, job, idLength);
      assert l' == l.(jobs := l.jobs + [job], roots := l.roots + [job.id], unacked := l.unacked + {|l.jobs|});
    case PushRetry(w, now, later, ok) =>
      var m := s.workers[w].m;
      if ok {
        Lineages.Retry(l, m, now, later, RetryDelay(cfg, s.jobs[m].attempt), idLength);
        assert l'.unacked == l.unacked + {|l.jobs|};
      } else {
        assert l'.failed == l.failed && l'.unacked == l.unacked;
        Shrink(l, l', idLength);
      }
    case Ack(w) =>
      var m := s.workers[w].m;
      assert PlacedOnce(s, m);
      assert l'.unacked == l.unacked - {m};
      if s.workers[w].outcome == Failed(true) {
        assert l'.failed == l.failed + {m};
        Fail(l, m, idLength);
      } else {
        assert l'.failed == l.failed;
        Shrink(l, l', idLength);
      }
    case _ =>
      assert l'.failed == l.failed && l'.unacked <= l.unacked;
      Shrink(l, l', idLength);
  }

  lemma {:induction false} RunKeepsInv(cfg: Settings, s: State, es: seq<Event>, idLength: nat)
    requires cfg.bucket.Valid() && Inv(s, idLength) && ValidRun(cfg, s, es)
    requires forall e <- es :: UniformId(e, idLength)
    ensures Inv(Run(cfg, s, es), idLength)
    decreases es
  {
    if es != [] {
      StepKeepsPlaced(cfg, s, es[0], idLength);
      StepKeepsWorkers(cfg, s, es[0], idLength);
      StepKeepsLedger(cfg, s, es[0], idLength);
      RunKeepsInv(cfg, Next(cfg, s, es[0]), es[1..], idLength);
    }
  }

  /** Over every run: each message is in exactly one of available, in flight, dropped early, dropped
      unknown or executed; each lineage has at most one unacknowledged message, whose attempt is 1
      plus the lineage's retryable failures; job ids never collide; and later messages of a lineage
      are later attempts at the same work. */
  lemma RunConserves(cfg: Settings, poolSize: nat, es: seq<Event>, idLength: nat, m1: nat, m2: nat)
    requires cfg.bucket.Valid() && ValidRun(cfg, Init(poolSize), es)
    requires forall e <- es :: UniformId(e, idLength)
    ensures var s := Run(cfg, Init(poolSize), es);
            var l := s.ToLedger();
            && |s.roots| == |s.jobs|
            && Places(s, m1) == One(m1 < |s.jobs|)
            && (m1 in l.unacked ==> m1 < |s.jobs| && s.jobs[m1].attempt == 1 + l.Failures(s.roots[m1]))
            && (m1 in l.unacked && m2 in l.unacked && m1 != m2 ==>
                  m1 < |s.jobs| && m2 < |s.jobs| && s.roots[m1] != s.roots[m2])
            && (m1 < m2 < |s.jobs| ==> s.jobs[m1].id != s.jobs[m2].id)
            && (m1 < m2 < |s.jobs| && s.roots[m1] == s.roots[m2] ==>
                  && s.jobs[m1].attempt < s.jobs[m2].attempt
                  && s.jobs[m1].taskType == s.jobs[m2].taskType && s.jobs[m1].user == s.jobs[m2].user
                  && s.jobs[m1].payload == s.jobs[m2].payload && s.jobs[m1].createdAt == s.jobs[m2].createdAt)
  {
    InitInv(poolSize, idLength);
    RunKeepsInv(cfg, Init(poolSize), es, idLength);
    var s := Run(cfg, Init(poolSize), es);
    var l := s.ToLedger();
    assert PlacedOnce(s, m1);
    if m1 in l.unacked {
      OneUnacked(l, idLength, m1, m2);
    }
    if m1 < m2 < |s.jobs| {
      IdsDistinct(l, idLength, m1, m2);
      assert l.Ordered(m1, m2);
    }
  }
}
