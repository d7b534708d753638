/** What the events of a run say about where its messages are, why, and when: readiness, retries and
    their delays, over every interleaving. */
module Histories {
  import opened Arith
  import B = Backoff
  import opened Jobs
  import opened Lineages
  import T = TokenBucket
  import opened WorkerPool
  import opened Wrappers

  /** The state before event k, or the last one. */
  function StateAt(cfg: Settings, s: State, es: seq<Event>, k: nat): State
    requires cfg.bucket.Valid() && ValidRun(cfg, s, es) && k <= |es|
    decreases k
  {
    if k == 0 then s else StateAt(cfg, Next(cfg, s, es[0]), es[1..], k - 1)
  }

  lemma {:induction false} StepAt(cfg: Settings, s: State, es: seq<Event>, k: nat)
    requires cfg.bucket.Valid() && ValidRun(cfg, s, es) && k < |es|
    ensures Enabled(StateAt(cfg, s, es, k), es[k])
    ensures StateAt(cfg, s, es, k + 1) == Next(cfg, StateAt(cfg, s, es, k), es[k])
    decreases k
  {
    if 0 < k {
      StepAt(cfg, Next(cfg, s, es[0]), es[1..], k - 1);
    }
  }

  lemma {:induction false} LastState(cfg: Settings, s: State, es: seq<Event>)
    requires cfg.bucket.Valid() && ValidRun(cfg, s, es)
    ensures StateAt(cfg, s, es, |es|) == Run(cfg, s, es)
    decreases es
  {
    if es != [] {
      LastState(cfg, Next(cfg, s, es[0]), es[1..]);
    }
  }

  predicate WorkerIs(s: State, w: nat, worker: Worker) {
    w < |s.workers| && s.workers[w] == worker
  }

  /** Messages and their roots are only ever added. */
  lemma {:induction false} JobsGrow(cfg: Settings, s: State, es: seq<Event>, i: nat, k: nat)
    requires cfg.bucket.Valid() && ValidRun(cfg, s, es) && i <= k <= |es| && |s.jobs| == |s.roots|
    ensures StateAt(cfg, s, es, i).jobs <= StateAt(cfg, s, es, k).jobs
    ensures StateAt(cfg, s, es, i).roots <= StateAt(cfg, s, es, k).roots
    ensures |StateAt(cfg, s, es, k).jobs| == |StateAt(cfg, s, es, k).roots|
    decreases k
  {
    if i < k {
      JobsGrow(cfg, s, es, i, k - 1);
      StepAt(cfg, s, es, k - 1);
    } else if 0 < k {
      JobsGrow(cfg, s, es, i - 1, k - 1);
      StepAt(cfg, s, es, k - 1);
    }
  }

  // ----- early messages -----

  /** At event k a worker finds the message it pulled not due yet. */
  predicate FoundEarly(cfg: Settings, s: State, es: seq<Event>, k: nat, m: nat)
    requires cfg.bucket.Valid() && ValidRun(cfg, s, es)
  {
    && k < |es| && es[k].CheckReady? && m < |StateAt(cfg, s, es, k).jobs|
    && WorkerIs(StateAt(cfg, s, es, k), es[k].w, Pulled(m))
    && es[k].nowNs < StateAt(cfg, s, es, k).jobs[m].executeAfter
  }

  ghost predicate EverFoundEarly(cfg: Settings, s: State, es: seq<Event>, k: nat, m: nat)
    requires cfg.bucket.Valid() && ValidRun(cfg, s, es)
  {
    exists i: nat :: i < k && FoundEarly(cfg, s, es, i, m)
  }

  lemma {:induction false} EarlyUpTo(cfg: Settings, s: State, es: seq<Event>, k: nat, m: nat)
    requires cfg.bucket.Valid() && ValidRun(cfg, s, es) && k <= |es|
    ensures m in StateAt(cfg, s, es, k).droppedEarly <==> m in s.droppedEarly || EverFoundEarly(cfg, s, es, k, m)
    decreases k
  {
    if 0 < k {
      EarlyUpTo(cfg, s, es, k - 1, m);
      StepAt(cfg, s, es, k - 1);
      var before, after := StateAt(cfg, s, es, k - 1), StateAt(cfg, s, es, k);
      assert m in after.droppedEarly <==> m in before.droppedEarly || FoundEarly(cfg, s, es, k - 1, m);
      assert FoundEarly(cfg, s, es, k - 1, m) ==> EverFoundEarly(cfg, s, es, k, m);
      if i: nat :| i < k && FoundEarly(cfg, s, es, i, m) {
        assert i == k - 1 || EverFoundEarly(cfg, s, es, k - 1, m);
      }
    }
  }

  /** In every run, exactly the messages that some worker found not due yet are dropped early. */
  lemma DroppedEarlyIff(cfg: Settings, poolSize: nat, es: seq<Event>, m: nat)
    requires cfg.bucket.Valid() && ValidRun(cfg, Init(poolSize), es)
    ensures m in Run(cfg, Init(poolSize), es).droppedEarly
       <==> exists k: nat :: k < |es| && FoundEarly(cfg, Init(poolSize), es, k, m)
  {
    LastState(cfg, Init(poolSize), es);
    EarlyUpTo(cfg, Init(poolSize), es, |es|, m);
  }

  // ----- what precedes an execution -----

  /** At event k a worker finds the message it pulled due. */
  predicate FoundDue(cfg: Settings, s: State, es: seq<Event>, k: nat, w: nat, m: nat)
    requires cfg.bucket.Valid() && ValidRun(cfg, s, es)
  {
    && k < |es| && es[k].CheckReady? && es[k].w == w && m < |StateAt(cfg, s, es, k).jobs|
    && WorkerIs(StateAt(cfg, s, es, k), w, Pulled(m))
    && StateAt(cfg, s, es, k).jobs[m].executeAfter <= es[k].nowNs
  }

  /** At event k the bucket grants a worker the execution of the message it found due. */
  predicate GrantedAt(cfg: Settings, s: State, es: seq<Event>, k: nat, w: nat, m: nat)
    requires cfg.bucket.Valid() && ValidRun(cfg, s, es)
  {
    && k < |es| && es[k].Ask? && es[k].w == w
    && WorkerIs(StateAt(cfg, s, es, k), w, Ready(m))
    && T.Allows(cfg.bucket, StateAt(cfg, s, es, k).bucket, T.Call(es[k].now, 1))
  }

  lemma {:induction false} ReadyOrigin(cfg: Settings, s: State, es: seq<Event>, k: nat, w: nat, m: nat)
    returns (i: nat)
    requires cfg.bucket.Valid() && ValidRun(cfg, s, es) && k <= |es| && !WorkerIs(s, w, Ready(m))
    requires WorkerIs(StateAt(cfg, s, es, k), w, Ready(m))
    ensures i < k && FoundDue(cfg, s, es, i, w, m)
    decreases k
  {
    StepAt(cfg, s, es, k - 1);
    if WorkerIs(StateAt(cfg, s, es, k - 1), w, Ready(m)) {
      i := ReadyOrigin(cfg, s, es, k - 1, w, m);
    } else {
      i := k - 1;
    }
  }

  lemma {:induction false} GrantOrigin(cfg: Settings, s: State, es: seq<Event>, k: nat, w: nat, m: nat)
    returns (i: nat)
    requires cfg.bucket.Valid() && ValidRun(cfg, s, es) && k <= |es| && !WorkerIs(s, w, Granted(m))
    requires WorkerIs(StateAt(cfg, s, es, k), w, Granted(m))
    ensures i < k && GrantedAt(cfg, s, es, i, w, m)
    decreases k
  {
    StepAt(cfg, s, es, k - 1);
    if WorkerIs(StateAt(cfg, s, es, k - 1), w, Granted(m)) {
      i := GrantOrigin(cfg, s, es, k - 1, w, m);
    } else {
      i := k - 1;
    }
  }

  /** In every run, a worker that starts executing a message had found it due and then been granted a
      token for it. */
  lemma ExecutionsFollowChecks(cfg: Settings, poolSize: nat, es: seq<Event>, k: nat, m: nat) returns (i: nat, j: nat)
    requires cfg.bucket.Valid() && ValidRun(cfg, Init(poolSize), es) && k < |es| && es[k].Begin?
    requires WorkerIs(StateAt(cfg, Init(poolSize), es, k), es[k].w, Granted(m))
    ensures i < j < k
    ensures FoundDue(cfg, Init(poolSize), es, i, es[k].w, m) && GrantedAt(cfg, Init(poolSize), es, j, es[k].w, m)
  {
    j := GrantOrigin(cfg, Init(poolSize), es, k, es[k].w, m);
    i := ReadyOrigin(cfg, Init(poolSize), es, j, es[k].w, m);
  }

  // ----- retries -----

  /** At event k a worker's execution of message m ends with this reply. */
  predicate FinishedAt(cfg: Settings, s: State, es: seq<Event>, k: nat, m: nat, reply: Reply)
    requires cfg.bucket.Valid() && ValidRun(cfg, s, es)
  {
    && k < |es| && es[k].Finish? && es[k].reply == reply
    && WorkerIs(StateAt(cfg, s, es, k), es[k].w, Running(m))
  }

  lemma {:induction false} FinishOrigin(
    cfg: Settings, s: State, es: seq<Event>, k: nat, w: nat, m: nat, outcome: Outcome)
    returns (i: nat)
    requires cfg.bucket.Valid() && ValidRun(cfg, s, es) && k <= |es| && !WorkerIs(s, w, Finished(m, outcome))
    requires WorkerIs(StateAt(cfg, s, es, k), w, Finished(m, outcome))
    ensures i < k && es[i].Finish? && FinishedAt(cfg, s, es, i, m, es[i].reply) && Classify(es[i].reply) == outcome
    decreases k
  {
    StepAt(cfg, s, es, k - 1);
    if WorkerIs(StateAt(cfg, s, es, k - 1), w, Finished(m, outcome)) {
      i := FinishOrigin(cfg, s, es, k - 1, w, m, outcome);
    } else {
      i := k - 1;
    }
  }

  lemma {:induction false} OutcomeOrigin(cfg: Settings, poolSize: nat, es: seq<Event>, k: nat, m: nat)
    returns (i: nat)
    requires cfg.bucket.Valid() && ValidRun(cfg, Init(poolSize), es) && k <= |es|
    requires m in StateAt(cfg, Init(poolSize), es, k).executed
    ensures i < k && es[i].Finish? && FinishedAt(cfg, Init(poolSize), es, i, m, es[i].reply)
    ensures Classify(es[i].reply) == StateAt(cfg, Init(poolSize), es, k).executed[m]
    decreases k
  {
    var s0 := Init(poolSize);
    StepAt(cfg, s0, es, k - 1);
    var before := StateAt(cfg, s0, es, k - 1);
    var outcome := StateAt(cfg, s0, es, k).executed[m];
    if m in before.executed && before.executed[m] == outcome {
      i := OutcomeOrigin(cfg, poolSize, es, k - 1, m);
    } else {
      i := FinishOrigin(cfg, s0, es, k - 1, es[k - 1].w, m, outcome);
    }
  }

  /** In every run, a message that is followed by another of its lineage was executed, and its
      request ended in a network error or a status of 500 or above: nothing else is retried. */
  lemma RetriesFollowFailures(cfg: Settings, poolSize: nat, es: seq<Event>, idLength: nat, m1: nat, m2: nat)
    requires cfg.bucket.Valid() && ValidRun(cfg, Init(poolSize), es)
    requires forall e <- es :: UniformId(e, idLength)
    requires var s := Run(cfg, Init(poolSize), es);
             m1 < m2 < |s.jobs| && m2 < |s.roots| && s.roots[m1] == s.roots[m2]
    ensures exists k: nat, reply :: FinishedAt(cfg, Init(poolSize), es, k, m1, reply)
                                    && (reply.NetworkError? || (reply.Status? && 500 <= reply.code))
  {
    var s := Run(cfg, Init(poolSize), es);
    InitInv(poolSize, idLength);
    RunKeepsInv(cfg, Init(poolSize), es, idLength);
    assert s.ToLedger().Ordered(m1, m2);
    LastState(cfg, Init(poolSize), es);
    var k := OutcomeOrigin(cfg, poolSize, es, |es|, m1);
    assert FinishedAt(cfg, Init(poolSize), es, k, m1, es[k].reply);
  }

  /** At event k a worker that owes message m a retry tries to push it. */
  predicate PushedAt(cfg: Settings, s: State, es: seq<Event>, k: nat, m: nat, ok: bool)
    requires cfg.bucket.Valid() && ValidRun(cfg, s, es)
  {
    k < |es| && es[k].PushRetry? && es[k].ok == ok && WorkerIs(StateAt(cfg, s, es, k), es[k].w, RetryOwed(m))
  }

  lemma {:induction false} RetryOutstanding(cfg: Settings, s: State, es: seq<Event>, i: nat, k: nat, w: nat, m: nat)
    requires cfg.bucket.Valid() && ValidRun(cfg, s, es) && i <= k <= |es|
    requires WorkerIs(StateAt(cfg, s, es, i), w, Finished(m, Failed(true)))
    ensures || WorkerIs(StateAt(cfg, s, es, k), w, Finished(m, Failed(true)))
            || WorkerIs(StateAt(cfg, s, es, k), w, RetryOwed(m))
            || exists j, ok :: i <= j < k && PushedAt(cfg, s, es, j, m, ok)
    decreases k
  {
    if i < k {
      RetryOutstanding(cfg, s, es, i, k - 1, w, m);
      StepAt(cfg, s, es, k - 1);
      if WorkerIs(StateAt(cfg, s, es, k - 1), w, RetryOwed(m)) && !WorkerIs(StateAt(cfg, s, es, k), w, RetryOwed(m)) {
        assert PushedAt(cfg, s, es, k - 1, m, es[k - 1].ok);
      }
    }
  }

  /** A push that succeeds adds the next attempt of the lineage, for good. */
  lemma PushAdds(cfg: Settings, s: State, es: seq<Event>, k: nat, m: nat)
    requires cfg.bucket.Valid() && ValidRun(cfg, s, es) && |s.jobs| == |s.roots|
    requires PushedAt(cfg, s, es, k, m, true)
    ensures var n, final := |StateAt(cfg, s, es, k).jobs|, Run(cfg, s, es);
            && m < n < |final.jobs| == |final.roots|
            && final.roots[n] == final.roots[m] && final.jobs[n].attempt == final.jobs[m].attempt + 1
  {
    StepAt(cfg, s, es, k);
    JobsGrow(cfg, s, es, k, k);
    JobsGrow(cfg, s, es, k, k + 1);
    JobsGrow(cfg, s, es, k + 1, |es|);
    LastState(cfg, s, es);
  }

  /** And every such failure is retried: in every run, a message whose request ended in a network error
      or a status of 500 or above is still to be acknowledged or owed its retry, or its push failed, or
      a later message of its lineage is the next attempt. */
  lemma FailuresAreRetried(cfg: Settings, poolSize: nat, es: seq<Event>, k: nat, m: nat, reply: Reply)
    requires cfg.bucket.Valid() && ValidRun(cfg, Init(poolSize), es)
    requires FinishedAt(cfg, Init(poolSize), es, k, m, reply)
    requires reply.NetworkError? || (reply.Status? && 500 <= reply.code)
    ensures var s := Run(cfg, Init(poolSize), es);
            || (exists w: nat :: w < |s.workers| && s.workers[w].Finished? && s.workers[w].m == m)
            || (exists w: nat :: WorkerIs(s, w, RetryOwed(m)))
            || (exists j: nat :: k < j && PushedAt(cfg, Init(poolSize), es, j, m, false))
            || (exists n: nat :: m < n < |s.jobs| == |s.roots|
                                 && s.roots[n] == s.roots[m] && s.jobs[n].attempt == s.jobs[m].attempt + 1)
  {
    var s0, w := Init(poolSize), es[k].w;
    StepAt(cfg, s0, es, k);
    LastState(cfg, s0, es);
    RetryOutstanding(cfg, s0, es, k + 1, |es|, w, m);
    if j, ok :| k + 1 <= j < |es| && PushedAt(cfg, s0, es, j, m, ok) {
      if ok {
        PushAdds(cfg, s0, es, j, m);
      }
    }
  }

  // ----- the delay of a retry -----

  /** What RetryDelay promises for an attempt whose product fits, or without exponential backoff. */
  lemma DelayMeans(cfg: Settings, attempt: int)
    requires 0 < cfg.baseDelay <= cfg.maxDelay <= MAX_INT64
    ensures cfg.exponential && B.Fits(cfg.baseDelay, attempt) ==>
              RetryDelay(cfg, attempt) == Min(B.Doubled(cfg.baseDelay, attempt - 1), cfg.maxDelay)
    ensures !cfg.exponential ==> RetryDelay(cfg, attempt) == cfg.retryDelay
  {
    if cfg.exponential && B.Fits(cfg.baseDelay, attempt) {
      B.DelayWhileFits(cfg.baseDelay, cfg.maxDelay, attempt);
    }
  }

  /** In every run, while the product fits, no worker finds the retry of message m ready earlier than
      the documented delay after its push; without exponential backoff not before the fixed delay. */
  lemma RetriesWait(cfg: Settings, poolSize: nat, es: seq<Event>, i: nat, k: nat, m: nat)
    requires cfg.bucket.Valid() && ValidRun(cfg, Init(poolSize), es) && i < k < |es|
    requires 0 < cfg.baseDelay <= cfg.maxDelay <= MAX_INT64
    requires PushedAt(cfg, Init(poolSize), es, i, m, true)
    requires es[k].CheckReady?
    requires var n := |StateAt(cfg, Init(poolSize), es, i).jobs|;
             && WorkerIs(StateAt(cfg, Init(poolSize), es, k), es[k].w, Pulled(n))
             && WorkerIs(StateAt(cfg, Init(poolSize), es, k + 1), es[k].w, Ready(n))
    ensures m < |StateAt(cfg, Init(poolSize), es, i).jobs|
    ensures var attempt := StateAt(cfg, Init(poolSize), es, i).jobs[m].attempt;
            && (cfg.exponential && B.Fits(cfg.baseDelay, attempt) ==>
                  es[i].later + Min(B.Doubled(cfg.baseDelay, attempt - 1), cfg.maxDelay) <= es[k].nowNs)
            && (!cfg.exponential ==> es[i].later + cfg.retryDelay <= es[k].nowNs)
  {
    var s0 := Init(poolSize);
    StepAt(cfg, s0, es, i);
    StepAt(cfg, s0, es, k);
    JobsGrow(cfg, s0, es, i + 1, k);
    DelayMeans(cfg, StateAt(cfg, s0, es, i).jobs[m].attempt);
  }
}
