/** The bucket and the pool together: how many jobs all workers can start in a stretch of time. */
module ExecutionBound {
  import opened Arith
  import T = TokenBucket
  import opened WorkerPool
  import opened Wrappers

  /** Workers that hold a grant they have not used yet. */
  function Held(workers: seq<Worker>): nat {
    if workers == [] then 0 else Held(workers[..|workers| - 1]) + One(workers[|workers| - 1].Granted?)
  }

  lemma {:induction false} HeldUpdate(workers: seq<Worker>, w: nat, worker: Worker)
    requires w < |workers|
    ensures Held(workers[w := worker]) + One(workers[w].Granted?) == Held(workers) + One(worker.Granted?)
    decreases |workers|
  {
    var n := |workers| - 1;
    if w == n {
      assert workers[w := worker][..n] == workers[..n];
    } else {
      assert workers[w := worker][..n] == workers[..n][w := worker];
      HeldUpdate(workers[..n], w, worker);
    }
  }

  lemma {:induction false} HeldAtMost(workers: seq<Worker>)
    ensures Held(workers) <= |workers|
    decreases |workers|
  {
    if workers != [] {
      HeldAtMost(workers[..|workers| - 1]);
    }
  }

  /** A worker that holds none leaves room for one fewer. */
  lemma HeldByOthers(workers: seq<Worker>, w: nat)
    requires w < |workers| && !workers[w].Granted?
    ensures Held(workers) <= |workers| - 1
  {
    HeldUpdate(workers, w, Granted(0));
    HeldAtMost(workers[w := Granted(0)]);
  }

  /** How often executeJob starts. */
  function Begins(es: seq<Event>): nat
    decreases es
  {
    if es == [] then 0 else One(es[0].Begin?) + Begins(es[1..])
  }

  /** Grants spent on jobs of unknown type. */
  function Wasted(es: seq<Event>): nat
    decreases es
  {
    if es == [] then 0 else One(es[0].UnknownType?) + Wasted(es[1..])
  }

  predicate IsGrant(cfg: Settings, s: State, e: Event)
    requires cfg.bucket.Valid()
  {
    e.Ask? && T.Allows(cfg.bucket, s.bucket, T.Call(e.now, 1))
  }

  /** Grants the workers receive. */
  function Grants(cfg: Settings, s: State, es: seq<Event>): nat
    requires cfg.bucket.Valid() && ValidRun(cfg, s, es)
    decreases es
  {
    if es == [] then 0 else One(IsGrant(cfg, s, es[0])) + Grants(cfg, Next(cfg, s, es[0]), es[1..])
  }

  lemma StepConservesGrants(cfg: Settings, s: State, e: Event)
    requires cfg.bucket.Valid() && Enabled(s, e)
    ensures Held(Next(cfg, s, e).workers) + One(e.Begin?) + One(e.UnknownType?)
         == Held(s.workers) + One(IsGrant(cfg, s, e))
    ensures |Next(cfg, s, e).workers| == |s.workers|
  {
    if HasWorkerOf(e) {
      HeldUpdate(s.workers, e.w, Next(cfg, s, e).workers[e.w]);
    }
  }

  /** Every grant is used by exactly one execution, wasted on an unknown type, or still held. */
  lemma {:induction false} GrantsConserved(cfg: Settings, s: State, es: seq<Event>)
    requires cfg.bucket.Valid() && ValidRun(cfg, s, es)
    ensures Held(Run(cfg, s, es).workers) + Begins(es) + Wasted(es) == Held(s.workers) + Grants(cfg, s, es)
    ensures |Run(cfg, s, es).workers| == |s.workers|
    decreases es
  {
    if es != [] {
      StepConservesGrants(cfg, s, es[0]);
      GrantsConserved(cfg, Next(cfg, s, es[0]), es[1..]);
    }
  }

  /** Events in which the script ran. */
  predicate IsCall(e: Event) {
    e.Ask? || (e.AskFails? && e.applied)
  }

  /** The bucket calls of a run, from whichever worker. */
  function Calls(es: seq<Event>): seq<T.Call>
    decreases es
  {
    if es == [] then []
    else (if IsCall(es[0]) then [T.Call(es[0].now, 1)] else []) + Calls(es[1..])
  }

  lemma {:induction false} CallsEnds(es: seq<Event>)
    requires es != [] && IsCall(es[|es| - 1])
    ensures Calls(es) != [] && Calls(es)[|Calls(es)| - 1].now == es[|es| - 1].now
    ensures IsCall(es[0]) ==> Calls(es)[0].now == es[0].now
    decreases es
  {
    if |es| == 1 {
      assert Calls(es[1..]) == [];
    } else {
      assert es[1..][|es[1..]| - 1] == es[|es| - 1];
      CallsEnds(es[1..]);
    }
  }

  predicate Unbroken(es: seq<Event>) {
    forall e <- es :: !e.BucketGone?
  }

  /** The pool's steps drive the bucket exactly as a run of script calls does; a grant that reaches
      a worker is one the script gave. */
  lemma {:induction false} PoolRunsBucket(cfg: Settings, s: State, es: seq<Event>)
    requires cfg.bucket.Valid() && ValidRun(cfg, s, es) && Unbroken(es)
    ensures Run(cfg, s, es).bucket == T.Run(cfg.bucket, s.bucket, Calls(es))
    ensures Grants(cfg, s, es) <= T.Granted(cfg.bucket, s.bucket, Calls(es))
    decreases es
  {
    if es != [] {
      var e, rest := es[0], es[1..];
      PoolRunsBucket(cfg, Next(cfg, s, e), rest);
      if IsCall(e) {
        assert Calls(es)[0] == T.Call(e.now, 1) && Calls(es)[1..] == Calls(rest);
      } else {
        assert Calls(es) == Calls(rest);
        assert Next(cfg, s, e).bucket == s.bucket by { assert e in es; }
      }
    }
  }

  lemma GrantsBounded(cfg: Settings, s: State, es: seq<Event>)
    requires cfg.bucket.Valid() && ValidRun(cfg, s, es)
    requires es != [] && IsCall(es[0]) && IsCall(es[|es| - 1])
    requires Unbroken(es) && T.Monotone(Calls(es))
    ensures Grants(cfg, s, es)
            <= cfg.bucket.burst + (es[|es| - 1].now - es[0].now) * cfg.bucket.limit / cfg.bucket.window
  {
    PoolRunsBucket(cfg, s, es);
    CallsEnds(es);
    T.MonotoneBound(cfg.bucket, s.bucket, Calls(es));
  }

  lemma BeginsBounded(cfg: Settings, s: State, es: seq<Event>)
    requires cfg.bucket.Valid() && ValidRun(cfg, s, es) && es != [] && IsCall(es[0])
    ensures Begins(es) < |s.workers| + Grants(cfg, s, es)
  {
    GrantsConserved(cfg, s, es);
    HeldByOthers(s.workers, es[0].w);
  }

  /** For any pool size and any interleaving, between two bucket calls at times s <= t the workers
      start fewer than poolSize + burst + (t - s) * limit / window executions, as long as the clock
      does not go back and the bucket is not dropped in between; before that, anything may happen. */
  lemma ExecutionsBounded(cfg: Settings, poolSize: nat, before: seq<Event>, es: seq<Event>)
    requires cfg.bucket.Valid() && ValidRun(cfg, Init(poolSize), before + es)
    requires es != [] && IsCall(es[0]) && IsCall(es[|es| - 1])
    requires Unbroken(es) && T.Monotone(Calls(es))
    ensures Begins(es)
            < poolSize + cfg.bucket.burst
              + (es[|es| - 1].now - es[0].now) * cfg.bucket.limit / cfg.bucket.window
  {
    RunSplit(cfg, Init(poolSize), before, es);
    GrantsConserved(cfg, Init(poolSize), before);
    var s := Run(cfg, Init(poolSize), before);
    BeginsBounded(cfg, s, es);
    GrantsBounded(cfg, s, es);
  }

  // ----- across expiries -----

  /** Bucket calls carry times that do not go back. */
  predicate InOrder(last: int, es: seq<Event>)
    decreases es
  {
    es == [] ||
    if IsCall(es[0]) then last <= es[0].now && InOrder(es[0].now, es[1..]) else InOrder(last, es[1..])
  }

  /** The hash is lost by expiry only: two windows lie between the calls around a loss. */
  predicate OnlyExpires(window: int, last: int, gone: bool, es: seq<Event>)
    decreases es
  {
    es == [] ||
    if IsCall(es[0]) then
      (gone ==> last + 2 * window <= es[0].now) && OnlyExpires(window, es[0].now, false, es[1..])
    else
      OnlyExpires(window, last, gone || es[0].BucketGone?, es[1..])
  }

  lemma {:induction false} InOrderSplits(last: int, xs: seq<Event>, ys: seq<Event>)
    requires InOrder(last, xs + ys)
    ensures InOrder(last, xs) && InOrder(LastCall(last, xs), ys)
    decreases xs
  {
    if xs == [] {
      assert xs + ys == ys;
    } else {
      assert (xs + ys)[0] == xs[0] && (xs + ys)[1..] == xs[1..] + ys;
      InOrderSplits(if IsCall(xs[0]) then xs[0].now else last, xs[1..], ys);
    }
  }

  /** The time of the last bucket call of a run, or the one before it. */
  function LastCall(last: int, es: seq<Event>): int
    decreases es
  {
    if es == [] then last else LastCall(if IsCall(es[0]) then es[0].now else last, es[1..])
  }

  ghost predicate NotBefore(last: int, calls: seq<T.Call>) {
    forall c <- calls :: last <= c.now
  }

  lemma OneEarlier(c: T.Call, calls: seq<T.Call>)
    requires T.Monotone(calls) && NotBefore(c.now, calls)
    ensures T.Monotone([c] + calls)
  {
    var all := [c] + calls;
    forall i, j | 0 <= i <= j < |all| ensures all[i].now <= all[j].now {
      if i == 0 && 0 < j {
        assert all[j] in calls;
      } else if 0 < i {
        assert calls[i - 1].now <= calls[j - 1].now;
      }
    }
  }

  lemma {:induction false} InOrderMonotone(last: int, es: seq<Event>)
    requires InOrder(last, es)
    ensures T.Monotone(Calls(es)) && NotBefore(last, Calls(es))
    decreases es
  {
    if es != [] {
      var e, rest := es[0], es[1..];
      if IsCall(e) {
        InOrderMonotone(e.now, rest);
        OneEarlier(T.Call(e.now, 1), Calls(rest));
      } else {
        InOrderMonotone(last, rest);
        assert Calls(es) == Calls(rest);
      }
    }
  }

  /** On a clock that does not go back, the hash is never in debt. */
  lemma {:induction false} NoDebt(cfg: Settings, s: State, es: seq<Event>, last: int)
    requires cfg.bucket.Valid() && ValidRun(cfg, s, es) && InOrder(last, es) && T.Current(s.bucket, last)
    ensures T.Current(Run(cfg, s, es).bucket, LastCall(last, es))
    decreases es
  {
    if es != [] {
      var e := es[0];
      if IsCall(e) {
        T.StepKeepsRange(cfg.bucket, s.bucket, T.Call(e.now, 1));
        NoDebt(cfg, Next(cfg, s, e), es[1..], e.now);
      } else {
        NoDebt(cfg, Next(cfg, s, e), es[1..], last);
      }
    }
  }

  /** What the pool's hash holds when the lasting one holds b. */
  predicate Follows(s: State, b: T.Bucket, last: int, gone: bool) {
    s.bucket == (if gone then None else Some(b)) && 0 <= b.tokens && b.lastRefill == last
  }

  /** The workers are granted no more than one run of the script on a hash that never expires gives. */
  lemma {:induction false} ExpiringRuns(cfg: Settings, s: State, es: seq<Event>, b: T.Bucket, last: int, gone: bool)
    requires cfg.bucket.Valid() && cfg.bucket.burst <= 2 * cfg.bucket.limit && ValidRun(cfg, s, es)
    requires InOrder(last, es) && OnlyExpires(cfg.bucket.window, last, gone, es) && Follows(s, b, last, gone)
    ensures Grants(cfg, s, es) <= T.Granted(cfg.bucket, Some(b), Calls(es))
    decreases es
  {
    if es != [] {
      var e, rest := es[0], es[1..];
      if IsCall(e) {
        var call := T.Call(e.now, 1);
        if gone {
          T.ExpiredStep(cfg.bucket, b, call);
        }
        T.StepKeepsRange(cfg.bucket, Some(b), call);
        assert Calls(es)[0] == call && Calls(es)[1..] == Calls(rest);
        ExpiringRuns(cfg, Next(cfg, s, e), rest, T.After(cfg.bucket, Some(b), call), e.now, false);
      } else {
        assert Calls(es) == Calls(rest);
        ExpiringRuns(cfg, Next(cfg, s, e), rest, b, last, gone || e.BucketGone?);
      }
    }
  }

  lemma ExpiringGrants(cfg: Settings, s: State, es: seq<Event>, last: int)
    requires cfg.bucket.Valid() && cfg.bucket.burst <= 2 * cfg.bucket.limit && ValidRun(cfg, s, es)
    requires es != [] && IsCall(es[0]) && InOrder(last, es) && T.Current(s.bucket, last)
    requires OnlyExpires(cfg.bucket.window, es[0].now, false, es[1..])
    ensures Grants(cfg, s, es) <= T.Granted(cfg.bucket, s.bucket, Calls(es))
  {
    var e, call := es[0], T.Call(es[0].now, 1);
    T.StepKeepsRange(cfg.bucket, s.bucket, call);
    assert Calls(es)[0] == call && Calls(es)[1..] == Calls(es[1..]);
    ExpiringRuns(cfg, Next(cfg, s, e), es[1..], T.After(cfg.bucket, s.bucket, call), e.now, false);
  }

  lemma ExpiringGrantsBounded(cfg: Settings, s: State, es: seq<Event>, last: int)
    requires cfg.bucket.Valid() && cfg.bucket.burst <= 2 * cfg.bucket.limit && ValidRun(cfg, s, es)
    requires es != [] && IsCall(es[0]) && IsCall(es[|es| - 1])
    requires InOrder(last, es) && T.Current(s.bucket, last)
    requires OnlyExpires(cfg.bucket.window, es[0].now, false, es[1..])
    ensures Grants(cfg, s, es)
            <= cfg.bucket.burst + (es[|es| - 1].now - es[0].now) * cfg.bucket.limit / cfg.bucket.window
  {
    InOrderMonotone(last, es);
    ExpiringGrants(cfg, s, es, last);
    CallsEnds(es);
    T.MonotoneBound(cfg.bucket, s.bucket, Calls(es));
  }

  /** With a burst of at most two windows' refill, and clocks that agree and do not go back, the bound
      stands however often the hash expires in between. */
  lemma ExecutionsBoundedAcrossExpiry(cfg: Settings, poolSize: nat, before: seq<Event>, es: seq<Event>, start: int)
    requires cfg.bucket.Valid() && cfg.bucket.burst <= 2 * cfg.bucket.limit
    requires ValidRun(cfg, Init(poolSize), before + es) && InOrder(start, before + es)
    requires es != [] && IsCall(es[0]) && IsCall(es[|es| - 1])
    requires OnlyExpires(cfg.bucket.window, es[0].now, false, es[1..])
    ensures Begins(es)
            < poolSize + cfg.bucket.burst
              + (es[|es| - 1].now - es[0].now) * cfg.bucket.limit / cfg.bucket.window
  {
    RunSplit(cfg, Init(poolSize), before, es);
    GrantsConserved(cfg, Init(poolSize), before);
    InOrderSplits(start, before, es);
    NoDebt(cfg, Init(poolSize), before, start);
    var s := Run(cfg, Init(poolSize), before);
    BeginsBounded(cfg, s, es);
    ExpiringGrantsBounded(cfg, s, es, LastCall(start, before));
  }
}
