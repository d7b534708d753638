/** Retry lineages: the messages pushed so far, in order, each with the root job it descends from. */
module Lineages {
  import opened Jobs

  /** Indices of messages by what is still due: unacknowledged, failed with a retry owed, and all
      that ever failed retryably. */
  datatype Ledger = Ledger(jobs: seq<Job>, roots: seq<string>, unacked: set<nat>, owed: set<nat>, failed: set<nat>) {

    function FailedOf(root: string): set<nat> {
      set m | m in failed && m < |roots| && roots[m] == root
    }

    /** Retryable failures of a lineage so far. */
    function Failures(root: string): nat {
      |FailedOf(root)|
    }

    predicate IsLive(m: nat) {
      m in unacked || m in owed
    }

    /** A message's job is the attempt it claims to be. */
    predicate JobOk(idLength: nat, m: nat)
      requires m < |jobs| == |roots|
    {
      |roots[m]| == idLength && 1 <= jobs[m].attempt && jobs[m].id == AttemptId(roots[m], jobs[m].attempt)
    }

    /** Of two messages of one lineage the earlier one failed retryably and the later one is a later
        attempt at the same work. */
    predicate Ordered(m1: nat, m2: nat)
      requires m1 < |jobs| == |roots| && m2 < |jobs|
    {
      m1 < m2 && roots[m1] == roots[m2] ==>
        && m1 in failed
        && jobs[m1].attempt < jobs[m2].attempt
        && jobs[m1].taskType == jobs[m2].taskType && jobs[m1].user == jobs[m2].user
        && jobs[m1].priority == jobs[m2].priority && jobs[m1].payload == jobs[m2].payload
        && jobs[m1].createdAt == jobs[m2].createdAt
    }

    /** Only the last message of a lineage can still be live. */
    predicate LastIfLive(m1: nat, m2: nat)
      requires m1 < |roots| && m2 < |roots|
    {
      IsLive(m2) && roots[m1] == roots[m2] ==> m1 <= m2
    }

    predicate AttemptCounts(m: nat)
      requires m < |jobs| == |roots|
    {
      && (m in unacked ==> jobs[m].attempt == 1 + Failures(roots[m]))
      && (m in owed ==> jobs[m].attempt == Failures(roots[m]))
    }

    ghost predicate Valid(idLength: nat) {
      && |roots| == |jobs|
      && (forall m <- unacked :: m < |jobs|)
      && (forall m <- owed :: m < |jobs|)
      && (forall m <- failed :: m < |jobs|)
      && unacked !! owed && unacked !! failed && owed <= failed
      && (forall m: nat :: m < |jobs| ==> JobOk(idLength, m))
      && (forall m1: nat, m2: nat :: m1 < |jobs| && m2 < |jobs| ==> Ordered(m1, m2))
      && (forall m1: nat, m2: nat :: m1 < |jobs| && m2 < |jobs| ==> LastIfLive(m1, m2))
      && (forall m: nat :: m < |jobs| ==> AttemptCounts(m))
    }
  }

  /** Dropping or ending messages. */
  lemma Shrink(l: Ledger, l': Ledger, idLength: nat)
    requires l.Valid(idLength)
    requires l' == l.(unacked := l'.unacked, owed := l'.owed) && l'.unacked <= l.unacked && l'.owed <= l.owed
    ensures l'.Valid(idLength)
  {
    forall root ensures l'.FailedOf(root) == l.FailedOf(root) {
    }
    forall m: nat | m < |l.jobs| ensures l'.AttemptCounts(m) && l'.JobOk(idLength, m) {
      assert l.AttemptCounts(m) && l.JobOk(idLength, m);
    }
    forall m1: nat, m2: nat | m1 < |l.jobs| && m2 < |l.jobs| ensures l'.Ordered(m1, m2) && l'.LastIfLive(m1, m2) {
      assert l.Ordered(m1, m2) && l.LastIfLive(m1, m2);
    }
  }

  /** Acknowledging a message that failed retryably: one more failure, one retry owed. */
  lemma Fail(l: Ledger, m: nat, idLength: nat)
    requires l.Valid(idLength) && m in l.unacked
    ensures l.(unacked := l.unacked - {m}, owed := l.owed + {m}, failed := l.failed + {m}).Valid(idLength)
  {
    var l' := l.(unacked := l.unacked - {m}, owed := l.owed + {m}, failed := l.failed + {m});
    forall root ensures l'.Failures(root) == l.Failures(root) + if root == l.roots[m] then 1 else 0 {
      if root == l.roots[m] {
        assert l'.FailedOf(root) == l.FailedOf(root) + {m};
      } else {
        assert l'.FailedOf(root) == l.FailedOf(root);
      }
    }
    forall k: nat | k < |l.jobs| ensures l'.AttemptCounts(k) {
      assert l.AttemptCounts(k);
      assert l.LastIfLive(k, m) && l.LastIfLive(m, k);
    }
    FailKeepsOrder(l, l', m, idLength);
  }

  lemma FailKeepsOrder(l: Ledger, l': Ledger, m: nat, idLength: nat)
    requires l.Valid(idLength) && m in l.unacked
    requires l' == l.(unacked := l.unacked - {m}, owed := l.owed + {m}, failed := l.failed + {m})
    ensures forall k: nat :: k < |l.jobs| ==> l'.JobOk(idLength, k)
    ensures forall m1: nat, m2: nat :: m1 < |l.jobs| && m2 < |l.jobs| ==> l'.Ordered(m1, m2) && l'.LastIfLive(m1, m2)
  {
    forall k: nat | k < |l.jobs| ensures l'.JobOk(idLength, k) {
      assert l.JobOk(idLength, k);
    }
    forall m1: nat, m2: nat | m1 < |l.jobs| && m2 < |l.jobs| ensures l'.Ordered(m1, m2) && l'.LastIfLive(m1, m2) {
      assert l.Ordered(m1, m2) && l.LastIfLive(m1, m2);
    }
  }

  /** What pushing one more message does to the failure counts: nothing. */
  lemma SameFailures(l: Ledger, l': Ledger, root: string)
    requires |l.roots| <= |l'.roots| && l'.roots[..|l.roots|] == l.roots && l'.failed == l.failed
    requires forall m <- l.failed :: m < |l.roots|
    ensures l'.Failures(root) == l.Failures(root)
  {
    assert l'.FailedOf(root) == l.FailedOf(root);
  }

  /** A new root job enters under an id no lineage uses. */
  lemma Submit(l: Ledger, job: Job, idLength: nat)
    requires l.Valid(idLength) && job.attempt == 1 && |job.id| == idLength && job.id !in l.roots
    ensures l.(jobs := l.jobs + [job], roots := l.roots + [job.id], unacked := l.unacked + {|l.jobs|}).Valid(idLength)
  {
    var n := |l.jobs|;
    var l' := l.(jobs := l.jobs + [job], roots := l.roots + [job.id], unacked := l.unacked + {n});
    assert l'.FailedOf(job.id) == {};
    forall k: nat | k <= n ensures l'.AttemptCounts(k) && l'.JobOk(idLength, k) {
      if k < n {
        assert l.AttemptCounts(k) && l.JobOk(idLength, k);
        SameFailures(l, l', l.roots[k]);
      }
    }
    forall m1: nat, m2: nat | m1 <= n && m2 <= n ensures l'.Ordered(m1, m2) && l'.LastIfLive(m1, m2) {
      if m1 < n && m2 < n {
        assert l.Ordered(m1, m2) && l.LastIfLive(m1, m2);
      }
    }
  }

  /** The owed retry of a message is pushed as the next attempt of its lineage. */
  lemma Retry(l: Ledger, m: nat, now: int, later: int, delay: int, idLength: nat)
    requires l.Valid(idLength) && m in l.owed
    ensures l.(jobs := l.jobs + [RetryJob(l.jobs[m], now, later, delay)], roots := l.roots + [l.roots[m]],
               unacked := l.unacked + {|l.jobs|}, owed := l.owed - {m}).Valid(idLength)
  {
    var n, job := |l.jobs|, RetryJob(l.jobs[m], now, later, delay);
    var l' := l.(
      jobs := l.jobs + [job], roots := l.roots + [l.roots[m]], unacked := l.unacked + {n}, owed := l.owed - {m});
    assert l.JobOk(idLength, m) && l.AttemptCounts(m);
    forall k: nat | k <= n ensures l'.AttemptCounts(k) && l'.JobOk(idLength, k) {
      SameFailures(l, l', l'.roots[k]);
      if k < n {
        assert l.AttemptCounts(k) && l.JobOk(idLength, k);
      }
    }
    forall m1: nat, m2: nat | m1 <= n && m2 <= n ensures l'.Ordered(m1, m2) && l'.LastIfLive(m1, m2) {
      if m1 < n && m2 < n {
        assert l.Ordered(m1, m2) && l.LastIfLive(m1, m2);
      } else if m1 < n {
        assert l.LastIfLive(m1, m) && l.Ordered(m1, m);
      } else if m2 < n {
        assert l.LastIfLive(m, m2) && l.LastIfLive(m2, m);
      }
    }
  }

  /** Each lineage has at most one unacknowledged message, and it is attempt 1 plus the lineage's
      retryable failures. */
  lemma OneUnacked(l: Ledger, idLength: nat, m1: nat, m2: nat)
    requires l.Valid(idLength) && m1 in l.unacked
    ensures l.jobs[m1].attempt == 1 + l.Failures(l.roots[m1])
    ensures m2 in l.unacked && l.roots[m1] == l.roots[m2] ==> m1 == m2
  {
    assert l.AttemptCounts(m1);
    if m2 in l.unacked && l.roots[m1] == l.roots[m2] {
      assert l.LastIfLive(m1, m2) && l.LastIfLive(m2, m1);
    }
  }

  /** No two messages ever carry the same job id. */
  lemma IdsDistinct(l: Ledger, idLength: nat, m1: nat, m2: nat)
    requires l.Valid(idLength) && m1 < m2 < |l.jobs|
    ensures l.jobs[m1].id != l.jobs[m2].id
  {
    assert l.JobOk(idLength, m1) && l.JobOk(idLength, m2) && l.Ordered(m1, m2);
    if l.jobs[m1].id == l.jobs[m2].id {
      AttemptIdsDistinct(l.roots[m1], l.jobs[m1].attempt, l.roots[m2], l.jobs[m2].attempt);
    }
  }
}
