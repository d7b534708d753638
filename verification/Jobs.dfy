/** Jobs, the outcomes of executing them, and what a retry carries over. */
module Jobs {
  import opened Arith

  const PRIORITY_NORMAL: int := 1

  datatype Job = Job(
    id: string, taskType: string, user: string, scheduledAt: int, executeAfter: int,
    attempt: nat, priority: int, payload: string, createdAt: int)

  function NewJob(id: string, taskType: string, user: string, executeAfter: int, now: int): Job {
    Job(id, taskType, user, now, executeAfter, 1, PRIORITY_NORMAL, "", now)
  }

  /** How the HTTP request of a job ended. */
  datatype Reply = RequestNotCreated | NetworkError | Status(code: int)

  datatype Outcome = Succeeded | Failed(retry: bool)

  /** The classification at the end of executeJob. */
  function Classify(reply: Reply): Outcome {
    match reply
    case RequestNotCreated => Failed(false)
    case NetworkError => Failed(true)
    case Status(code) => if 200 <= code < 300 then Succeeded else Failed(500 <= code)
  }

  /** The maximum number of attempts plays no part. */
  predicate ShouldRetry(outcome: Outcome, maxAttempts: int) {
    outcome.Failed? && outcome.retry
  }

  function Decimal(n: nat): (s: string)
    ensures s != ""
  {
    if n < 10 then [Digit(n)] else Decimal(n / 10) + [Digit(n % 10)]
  }

  lemma {:induction false} DecimalReadsBack(n: nat)
    ensures Number(Decimal(n)) == n
  {
    if 10 <= n {
      DecimalReadsBack(n / 10);
      assert Decimal(n)[..|Decimal(n)| - 1] == Decimal(n / 10);
    }
  }

  function RetryId(id: string, attempt: nat): string {
    id + "_retry_" + Decimal(attempt)
  }

  /** The retry of a job: a new id, the next attempt, new times, everything else carried over. */
  function RetryJob(job: Job, now: int, later: int, delay: int): Job {
    job.(id := RetryId(job.id, job.attempt + 1), attempt := job.attempt + 1,
         scheduledAt := now, executeAfter := later + delay)
  }

  /** The id a lineage uses for an attempt: every retry appends to the id before it. */
  function AttemptId(root: string, attempt: nat): string {
    if attempt <= 1 then root else RetryId(AttemptId(root, attempt - 1), attempt)
  }

  predicate IsDigit(c: char) {
    '0' <= c <= '9'
  }

  lemma {:induction false} DecimalIsDigits(n: nat)
    ensures forall c <- Decimal(n) :: IsDigit(c)
  {
    if 10 <= n {
      DecimalIsDigits(n / 10);
    }
  }

  /** The last underscore splits a text in only one way. */
  lemma LastUnderscore(x1: string, digits1: string, x2: string, digits2: string)
    requires x1 + "_" + digits1 == x2 + "_" + digits2 && |x1| <= |x2|
    requires forall c <- digits1 :: IsDigit(c)
    ensures x1 == x2 && digits1 == digits2
  {
    var s1, s2 := x1 + "_" + digits1, x2 + "_" + digits2;
    forall i | |x1| < i < |s1| ensures IsDigit(s1[i]) {
      assert s1[i] == digits1[i - |x1| - 1];
    }
    assert s2[|x2|] == '_' && !IsDigit('_');
    assert s1[..|x1|] == x1 && s2[..|x2|] == x2;
    assert s1[|x1| + 1..] == digits1 && s2[|x2| + 1..] == digits2;
  }

  /** The last underscore of a retry id ends the id it was made from, so both parts read back. */
  lemma RetryIdInjective(id1: string, a1: nat, id2: string, a2: nat)
    requires RetryId(id1, a1) == RetryId(id2, a2)
    ensures id1 == id2 && a1 == a2
  {
    var x1, x2, d1, d2 := id1 + "_retry", id2 + "_retry", Decimal(a1), Decimal(a2);
    assert RetryId(id1, a1) == x1 + "_" + d1 && RetryId(id2, a2) == x2 + "_" + d2;
    DecimalIsDigits(a1);
    DecimalIsDigits(a2);
    if |x1| <= |x2| {
      LastUnderscore(x1, d1, x2, d2);
    } else {
      LastUnderscore(x2, d2, x1, d1);
    }
    assert x1[..|id1|] == id1 && x2[..|id2|] == id2;
    DecimalReadsBack(a1);
    DecimalReadsBack(a2);
  }

  /** Attempts of two lineages share an id exactly when they are the same attempt of the same
      lineage, or one lineage's root is itself that attempt's id of the other. */
  lemma AttemptIdsCollideIff(root1: string, a1: nat, root2: string, a2: nat)
    requires 1 <= a1 && 1 <= a2
    ensures AttemptId(root1, a1) == AttemptId(root2, a2)
       <==> (root1 == root2 && a1 == a2)
            || (a1 == 1 && root1 == AttemptId(root2, a2)) || (a2 == 1 && root2 == AttemptId(root1, a1))
  {
    if 1 < a1 && 1 < a2 && AttemptId(root1, a1) == AttemptId(root2, a2) {
      RetryIdInjective(AttemptId(root1, a1 - 1), a1, AttemptId(root2, a2 - 1), a2);
      AttemptIdsOfOneAttempt(root1, root2, a1 - 1);
    }
  }

  lemma {:induction false} AttemptIdsOfOneAttempt(root1: string, root2: string, a: nat)
    requires 1 <= a && AttemptId(root1, a) == AttemptId(root2, a)
    ensures root1 == root2
  {
    if 1 < a {
      RetryIdInjective(AttemptId(root1, a - 1), a, AttemptId(root2, a - 1), a);
      AttemptIdsOfOneAttempt(root1, root2, a - 1);
    }
  }

  lemma {:induction false} AttemptIdsGrow(root: string, a: nat, b: nat)
    requires 1 <= a < b
    ensures |AttemptId(root, a)| < |AttemptId(root, b)|
    decreases b - a
  {
    if a < b - 1 {
      AttemptIdsGrow(root, a, b - 1);
    }
  }

  /** So ids never collide among lineages whose roots have one length. */
  lemma AttemptIdsDistinct(root1: string, a1: nat, root2: string, a2: nat)
    requires 1 <= a1 && 1 <= a2 && |root1| == |root2|
    requires AttemptId(root1, a1) == AttemptId(root2, a2)
    ensures root1 == root2 && a1 == a2
  {
    AttemptIdsCollideIff(root1, a1, root2, a2);
    if 1 < a1 {
      AttemptIdsGrow(root1, 1, a1);
    }
    if 1 < a2 {
      AttemptIdsGrow(root2, 1, a2);
    }
  }
}
