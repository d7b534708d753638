/** Spreading a batch of jobs over a window: jittered slots, an in-place shuffle, and pushes that
    may fail one by one. */
module Distribution {
  import opened Arith
  import opened Calendar
  import opened Jobs

  datatype Todo = Todo(taskType: string, user: string)

  /** The spacing of slots, never below a second. */
  function Spacing(window: int, taskCount: int): int
    requires 0 < taskCount
  {
    var interval := window / taskCount;
    if interval < SECOND then SECOND else interval
  }

  /** Slot i lies in the first quarter of the i-th interval. */
  ghost predicate Jittered(interval: int, slots: seq<int>) {
    forall i :: 0 <= i < |slots| ==> i * interval <= slots[i] < i * interval + interval / 4
  }

  /** What calculateTimeSlots may return. */
  ghost predicate PossibleSlots(window: int, slots: seq<int>) {
    if |slots| <= 1 then slots == [] || slots == [0] else Jittered(Spacing(window, |slots|), slots)
  }

  function EstimateDistributionTime(window: int, taskCount: int): int {
    if taskCount <= 1 then 0
    else if window / taskCount < SECOND then taskCount * SECOND
    else window
  }

  lemma MulAscends(i: int, j: int, k: int)
    requires 0 <= k && i <= j
    ensures i * k <= j * k && (i + 1) * k == i * k + k
  {
  }

  /** Slots j - i places apart are more than j - i - 1/4 intervals apart. */
  lemma SlotGap(interval: int, slots: seq<int>, i: int, j: int)
    requires 4 <= interval && Jittered(interval, slots) && 0 <= i < j < |slots|
    ensures slots[i] < slots[j]
    ensures 4 * (slots[j] - slots[i]) > 4 * ((j - i) * interval) - interval
  {
    assert j * interval == i * interval + (j - i) * interval;
    MulAscends(1, j - i, interval);
  }

  /** Slots ascend strictly, neighbours by more than three quarters of the interval. */
  lemma NeighbourGap(interval: int, slots: seq<int>, i: int)
    requires 4 <= interval && Jittered(interval, slots) && 0 <= i < |slots| - 1
    ensures 4 * (slots[i + 1] - slots[i]) > 3 * interval
  {
    SlotGap(interval, slots, i, i + 1);
  }

  function SlotsWithin(slots: seq<int>, from: int, to: int): set<int> {
    set i | 0 <= i < |slots| && from <= slots[i] < to
  }

  predicate Between(lo: int, i: int, hi: int) {
    lo <= i < hi
  }

  function Range(lo: int, hi: int): set<int> {
    set i | lo <= i < hi && Between(lo, i, hi)
  }

  lemma {:induction false} RangeSize(lo: int, hi: int)
    requires lo <= hi
    ensures |Range(lo, hi)| == hi - lo
    decreases hi - lo
  {
    if lo == hi {
      assert Range(lo, hi) == {};
    } else {
      RangeSize(lo, hi - 1);
      assert Range(lo, hi) == Range(lo, hi - 1) + {hi - 1};
    }
  }

  lemma Subset(a: set<int>, b: set<int>)
    requires a <= b
    ensures |a| <= |b|
  {
    assert b == a + (b - a);
  }

  /** The first slot at or after a moment. */
  function FirstFrom(slots: seq<int>, from: int, i: nat): (r: nat)
    requires i <= |slots|
    ensures i <= r <= |slots| && (forall k :: i <= k < r ==> slots[k] < from) && (r < |slots| ==> from <= slots[r])
    decreases |slots| - i
  {
    if i < |slots| && slots[i] < from then FirstFrom(slots, from, i + 1) else i
  }

  /** A half-open span of m intervals holds at most m + 1 slots. */
  lemma SpanBound(interval: int, slots: seq<int>, from: int, m: nat)
    requires 4 <= interval && Jittered(interval, slots)
    ensures |SlotsWithin(slots, from, from + m * interval)| <= m + 1
  {
    var inside, lo := SlotsWithin(slots, from, from + m * interval), FirstFrom(slots, from, 0);
    forall i | i in inside ensures lo <= i < lo + (m + 1) {
      if lo + m < i {
        SlotGap(interval, slots, lo, i);
        MulAscends(m, m, interval);
        MulAscends(m + 1, i - lo, interval);
      }
    }
    Subset(inside, Range(lo, lo + m + 1));
    RangeSize(lo, lo + m + 1);
  }

  /** No second of a batch holds more than two jobs. */
  lemma AtMostTwoPerSecond(window: int, slots: seq<int>, from: int)
    requires PossibleSlots(window, slots)
    ensures |SlotsWithin(slots, from, from + SECOND)| <= 2
  {
    var inside := SlotsWithin(slots, from, from + SECOND);
    if |slots| <= 1 {
      Subset(inside, Range(0, 1));
      RangeSize(0, 1);
    } else {
      var interval := Spacing(window, |slots|);
      var wider := SlotsWithin(slots, from, from + 1 * interval);
      SpanBound(interval, slots, from, 1);
      assert inside <= wider;
      Subset(inside, wider);
    }
  }

  /** The estimate lies above every slot, and above the last one by less than an interval and n
      nanoseconds. */
  lemma EstimateIsTight(window: int, slots: seq<int>)
    requires 2 <= |slots| && PossibleSlots(window, slots)
    ensures forall i :: 0 <= i < |slots| ==> slots[i] < EstimateDistributionTime(window, |slots|)
    ensures EstimateDistributionTime(window, |slots|) - slots[|slots| - 1] < Spacing(window, |slots|) + |slots|
  {
    var n, interval := |slots|, Spacing(window, |slots|);
    var estimate := EstimateDistributionTime(window, n);
    assert window == n * (window / n) + window % n;
    assert n * interval <= estimate < n * interval + n;
    forall i | 0 <= i < n ensures slots[i] < estimate {
      MulAscends(i + 1, n, interval);
      MulAscends(i, i, interval);
    }
    MulAscends(n - 1, n - 1, interval);
  }

  /** When a second per job fits, the batch fills the window: slot i lies in the first quarter of the
      i-th n-th part of it. Otherwise slot i lies in the first quarter of second i. */
  lemma SlotsFillWindow(window: int, slots: seq<int>, i: nat)
    requires 2 <= |slots| && PossibleSlots(window, slots) && i < |slots|
    ensures |slots| * SECOND <= window ==>
              i * (window / |slots|) <= slots[i] < i * (window / |slots|) + window / |slots| / 4
              && slots[i] < window
    ensures window < |slots| * SECOND ==> i * SECOND <= slots[i] < i * SECOND + SECOND / 4
  {
    var n := |slots|;
    assert window == n * (window / n) + window % n;
    if n * SECOND <= window {
      SecondsFit(window, n);
      MulAscends(i + 1, n, window / n);
      MulAscends(i, i, window / n);
    } else {
      SecondsDoNotFit(window, n);
    }
  }

  lemma SecondsFit(window: int, n: int)
    requires 0 < n && n * SECOND <= window
    ensures SECOND <= window / n
  {
    FloorOfMultiple(SECOND, n);
    FloorMonotone(SECOND * n, window, n);
  }

  lemma SecondsDoNotFit(window: int, n: int)
    requires 0 < n && window < n * SECOND
    ensures window / n < SECOND
  {
    var q := window / n;
    assert window == n * q + window % n;
    assert (q - SECOND) * n == q * n - SECOND * n;
    MultipleIsFar(q - SECOND, n);
  }

  /** Slots start at zero or later and no two coincide. */
  lemma SlotsDistinct(window: int, slots: seq<int>)
    requires PossibleSlots(window, slots)
    ensures forall i :: 0 <= i < |slots| ==> 0 <= slots[i]
    ensures forall i, j :: 0 <= i < j < |slots| ==> slots[i] != slots[j]
  {
    if 2 <= |slots| {
      var interval := Spacing(window, |slots|);
      forall i | 0 <= i < |slots| ensures 0 <= slots[i] {
        MulAscends(0, i, interval);
      }
      forall i, j | 0 <= i < j < |slots| ensures slots[i] != slots[j] {
        SlotGap(interval, slots, i, j);
      }
    }
  }

  function PairOf(job: Job): Todo {
    Todo(job.taskType, job.user)
  }

  function PairsOf(jobs: seq<Job>): (r: seq<Todo>)
    ensures |r| == |jobs| && forall i :: 0 <= i < |jobs| ==> r[i] == PairOf(jobs[i])
  {
    seq(|jobs|, i requires 0 <= i < |jobs| => PairOf(jobs[i]))
  }

  lemma PairsAreTasks(jobs: seq<Job>, tasks: seq<Todo>)
    requires multiset(PairsOf(jobs)) == multiset(tasks)
    ensures forall i :: 0 <= i < |jobs| ==> Todo(jobs[i].taskType, jobs[i].user) in tasks
  {
    forall i | 0 <= i < |jobs| ensures Todo(jobs[i].taskType, jobs[i].user) in tasks {
      assert PairsOf(jobs)[i] in multiset(PairsOf(jobs));
    }
  }

  /** The jobs whose push succeeded, in order. */
  function Accepted(jobs: seq<Job>, ok: seq<bool>): seq<Job>
    requires |jobs| == |ok|
  {
    if jobs == [] then []
    else
      var n := |jobs| - 1;
      Accepted(jobs[..n], ok[..n]) + if ok[n] then [jobs[n]] else []
  }

  /** A job whose push succeeded is accepted, whatever happened to the others. */
  lemma {:induction false} EachAccepted(jobs: seq<Job>, ok: seq<bool>)
    requires |jobs| == |ok|
    ensures forall i :: 0 <= i < |jobs| && ok[i] ==> jobs[i] in Accepted(jobs, ok)
    decreases |jobs|
  {
    if jobs != [] {
      var n := |jobs| - 1;
      EachAccepted(jobs[..n], ok[..n]);
      forall i | 0 <= i < |jobs| && ok[i] ensures jobs[i] in Accepted(jobs, ok) {
        if i < n {
          assert jobs[..n][i] == jobs[i] && ok[..n][i] == ok[i];
        }
      }
    }
  }

  lemma {:induction false} AllAccepted(jobs: seq<Job>, ok: seq<bool>)
    requires |jobs| == |ok| && forall b <- ok :: b
    ensures Accepted(jobs, ok) == jobs
    decreases |jobs|
  {
    if jobs != [] {
      var n := |jobs| - 1;
      forall b | b in ok[..n] ensures b {
        assert b in ok;
      }
      AllAccepted(jobs[..n], ok[..n]);
      assert ok[n] in ok;
      assert jobs == jobs[..n] + [jobs[n]];
    }
  }

  method Swap(a: array<Todo>, i: nat, j: nat)
    requires i < a.Length && j < a.Length
    modifies a
    ensures multiset(a[..]) == multiset(old(a[..]))
  {
    a[i], a[j] := a[j], a[i];
  }

  /** rand.Shuffle: every choice of swaps is possible. */
  method Shuffle(a: array<Todo>)
    modifies a
    ensures multiset(a[..]) == multiset(old(a[..]))
  {
    var i := a.Length;
    while 1 < i
      invariant multiset(a[..]) == multiset(old(a[..]))
      invariant 0 <= i <= a.Length
    {
      var j: nat :| j < i;
      Swap(a, i - 1, j);
      i := i - 1;
    }
  }

  class Distributor {
    var distributionWindow: int
    /** What has been pushed to the job queue. */
    var queue: seq<Job>

    constructor (window: int)
      ensures distributionWindow == window && queue == []
    {
      distributionWindow, queue := window, [];
    }

    method CalculateTimeSlots(taskCount: nat) returns (slots: array<int>)
      ensures fresh(slots) && slots.Length == taskCount
      ensures PossibleSlots(distributionWindow, slots[..])
    {
      if taskCount == 0 {
        slots := new int[0];
        return;
      }
      if taskCount == 1 {
        slots := new int[1](_ => 0);
        assert slots[..] == [0];
        return;
      }
      var interval := distributionWindow / taskCount;
      if interval < SECOND {
        interval := SECOND;
      }
      slots := new int[taskCount];
      var i := 0;
      while i < taskCount
        invariant 0 <= i <= taskCount
        invariant forall k :: 0 <= k < i ==> slots[k] == k * interval
      {
        slots[i] := i * interval;
        i := i + 1;
      }
      var jitterRange := interval / 4;
      if jitterRange > 0 {
        i := 0;
        while i < taskCount
          invariant 0 <= i <= taskCount
          invariant forall k :: 0 <= k < i ==> k * interval <= slots[k] < k * interval + jitterRange
          invariant forall k :: i <= k < taskCount ==> slots[k] == k * interval
        {
          var jitter: int :| 0 <= jitter < jitterRange;
          slots[i] := slots[i] + jitter;
          i := i + 1;
        }
      }
    }

    /** Creates one job per task in a shuffled order and pushes them all; a failed push loses that
        job and nothing else. */
    method DistributeTasks(tasks: seq<Todo>, baseTime: int, now: int)
      returns (created: seq<Job>, ghost slots: seq<int>, ghost ok: seq<bool>)
      modifies this`queue
      ensures |created| == |slots| == |ok| == |tasks|
      ensures multiset(PairsOf(created)) == multiset(tasks)
      ensures PossibleSlots(distributionWindow, slots)
      ensures forall i :: 0 <= i < |created| ==>
                created[i].executeAfter == baseTime + slots[i] && created[i].attempt == 1 && created[i].createdAt == now
      ensures forall i :: 0 <= i < |created| ==>
                && Todo(created[i].taskType, created[i].user) in tasks && created[i].scheduledAt == now
                && created[i].priority == 1 && created[i].payload == ""
      ensures forall i :: 0 <= i < |created| ==> baseTime <= created[i].executeAfter
      ensures forall i, j :: 0 <= i < j < |created| ==> created[i].executeAfter != created[j].executeAfter
      ensures queue == old(queue) + Accepted(created, ok)
      ensures forall i :: 0 <= i < |created| && ok[i] ==> created[i] in queue
      ensures (forall pushed <- ok :: pushed) ==> queue == old(queue) + created
    {
      created, slots, ok := [], [], [];
      if |tasks| == 0 {
        return;
      }
      var timeSlots := CalculateTimeSlots(|tasks|);
      var shuffled := new Todo[|tasks|](i requires 0 <= i < |tasks| => tasks[i]);
      assert shuffled[..] == tasks;
      Shuffle(shuffled);
      slots := timeSlots[..];
      SlotsDistinct(distributionWindow, slots);
      created := CreateJobs(shuffled, timeSlots, baseTime, now);
      PairsAreTasks(created, tasks);
      ok := PushJobs(created);
      EachAccepted(created, ok);
      if forall pushed <- ok :: pushed {
        AllAccepted(created, ok);
      }
    }

    method CreateJobs(shuffled: array<Todo>, timeSlots: array<int>, baseTime: int, now: int) returns (created: seq<Job>)
      requires shuffled.Length == timeSlots.Length
      ensures PairsOf(created) == shuffled[..]
      ensures forall i :: 0 <= i < |created| ==>
                && created[i].executeAfter == baseTime + timeSlots[..][i]
                && created[i].attempt == 1 && created[i].createdAt == now && created[i].scheduledAt == now
                && created[i].priority == 1 && created[i].payload == ""
    {
      created := [];
      var i := 0;
      while i < shuffled.Length
        invariant 0 <= i <= shuffled.Length && |created| == i
        invariant forall k :: 0 <= k < i ==>
                    && created[k].executeAfter == baseTime + timeSlots[k] && created[k].attempt == 1
                    && created[k].createdAt == now && created[k].scheduledAt == now
                    && created[k].priority == 1 && created[k].payload == "" && PairOf(created[k]) == shuffled[k]
      {
        var id: string := *;
        var task := shuffled[i];
        created := created + [NewJob(id, task.taskType, task.user, baseTime + timeSlots[i], now)];
        i := i + 1;
      }
    }

    /** Every job is pushed, whether or not earlier pushes failed. */
    method PushJobs(created: seq<Job>) returns (ghost ok: seq<bool>)
      modifies this`queue
      ensures |ok| == |created| && queue == old(queue) + Accepted(created, ok)
    {
      ok := [];
      var i := 0;
      while i < |created|
        invariant 0 <= i <= |created| && |ok| == i
        invariant queue == old(queue) + Accepted(created[..i], ok)
      {
        var pushed: bool := *;
        assert created[..i + 1][..i] == created[..i];
        if pushed {
          queue := queue + [created[i]];
        }
        ok := ok + [pushed];
        assert ok[..i] + [pushed] == ok;
        i := i + 1;
      }
      assert created[..i] == created;
    }
  }
}
