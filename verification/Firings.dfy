/** One task type seen on its own: a last execution in whole seconds, and chances to fire. */
module Firings {
  import opened Arith
  import opened Calendar

  /** A tick as one type sees it: the time, whether its reads succeed and find anybody with the type
      enabled, and whether its last execution would be written. */
  datatype Chance = Chance(now: int, able: bool, stamped: bool)

  predicate Fires(next: int -> int, last: int, c: Chance) {
    next(last) <= c.now && c.able
  }

  function Step(next: int -> int, last: int, c: Chance): int {
    if Fires(next, last, c) && c.stamped then Truncate(c.now, SECOND) else last
  }

  /** Which chances are taken. */
  function Marks(next: int -> int, last: int, cs: seq<Chance>): (r: seq<bool>)
    ensures |r| == |cs|
    decreases cs
  {
    if cs == [] then [] else [Fires(next, last, cs[0])] + Marks(next, Step(next, last, cs[0]), cs[1..])
  }

  predicate NoneBetween(marks: seq<bool>, lo: int, hi: int)
    requires 0 <= lo && hi <= |marks|
  {
    forall k :: lo <= k < hi ==> !marks[k]
  }

  /** No chance between the two is both taken and written down. */
  predicate NoStampBetween(marks: seq<bool>, cs: seq<Chance>, lo: int, hi: int)
    requires 0 <= lo && hi <= |marks| == |cs|
  {
    forall k :: lo <= k < hi ==> !(marks[k] && cs[k].stamped)
  }

  /** While no firing is written down, the due time stays where it was. */
  lemma {:induction false} FirstMark(next: int -> int, last: int, cs: seq<Chance>, j: nat)
    requires j < |cs| && NoStampBetween(Marks(next, last, cs), cs, 0, j)
    ensures Marks(next, last, cs)[j] == Fires(next, last, cs[j])
    decreases j
  {
    if 0 < j {
      var marks, rest := Marks(next, last, cs), Marks(next, last, cs[1..]);
      assert !(marks[0] && cs[0].stamped);
      assert marks == [marks[0]] + rest;
      forall k | 0 <= k < j - 1 ensures !(rest[k] && cs[1..][k].stamped) {
        assert !(marks[k + 1] && cs[k + 1].stamped);
      }
      FirstMark(next, last, cs[1..], j - 1);
    }
  }

  /** After a firing that is written down, the type fires at every able chance at or after the due
      time until a firing is written down again. */
  lemma {:induction false} NextMark(next: int -> int, last: int, cs: seq<Chance>, i: nat, j: nat)
    requires forall t :: next(Truncate(t, SECOND)) == next(t)
    requires i < j < |cs| && Marks(next, last, cs)[i] && cs[i].stamped
    requires NoStampBetween(Marks(next, last, cs), cs, i + 1, j)
    ensures Marks(next, last, cs)[j] <==> next(cs[i].now) <= cs[j].now && cs[j].able
    decreases i
  {
    var marks, after := Marks(next, last, cs), Step(next, last, cs[0]);
    var rest := Marks(next, after, cs[1..]);
    assert marks == [marks[0]] + rest;
    forall k | i <= k < j - 1 && 0 <= k < |rest| && marks[k + 1] == rest[k]
      ensures k + 1 == i || !(rest[k] && cs[1..][k].stamped)
    {
      if k + 1 != i {
        assert i + 1 <= k + 1 < j;
      }
    }
    if i == 0 {
      FirstMark(next, after, cs[1..], j - 1);
    } else {
      NextMark(next, after, cs[1..], i - 1, j - 1);
    }
  }

  // ----- rates -----

  function HourOf(t: int): int {
    t / HOUR
  }

  /** Events at clock hours, of which some are marked; consecutive marked ones lie v hours apart. */
  ghost predicate Spaced(marked: seq<bool>, hours: seq<int>, v: int) {
    && |marked| == |hours| && 1 <= v
    && forall p, j :: 0 <= p < j < |marked| && Consecutive(marked, p, j) ==> hours[p] + v <= hours[j]
  }

  predicate Consecutive(marked: seq<bool>, p: nat, j: nat)
    requires p < j < |marked|
  {
    marked[p] && marked[j] && NoneBetween(marked, p + 1, j)
  }

  /** Then any two marked ones do, even if hours go back in between. */
  lemma {:induction false} MarkedApart(marked: seq<bool>, hours: seq<int>, v: int, i: nat, p: nat, j: nat)
    requires Spaced(marked, hours, v) && i <= p < j < |marked|
    requires marked[i] && marked[j] && NoneBetween(marked, p + 1, j)
    ensures hours[i] + v <= hours[j]
    decreases j, p
  {
    if !marked[p] {
      MarkedApart(marked, hours, v, i, p - 1, j);
    } else {
      assert Consecutive(marked, p, j);
      if i < p {
        MarkedApart(marked, hours, v, i, p - 1, p);
      }
    }
  }

  /** How many of the first n events are marked and fall within the given hours. */
  function MarkedWithin(marked: seq<bool>, hours: seq<int>, n: nat, from: int, to: int): nat
    requires n <= |marked| == |hours|
  {
    if n == 0 then 0
    else MarkedWithin(marked, hours, n - 1, from, to)
         + if marked[n - 1] && from <= hours[n - 1] < to then 1 else 0
  }

  lemma OneMore(count: int, v: int)
    ensures count * v == (count - 1) * v + v
  {
  }

  /** Each one counted, except the last, uses up v hours. */
  lemma {:induction false} MarkedUseHours(marked: seq<bool>, hours: seq<int>, v: int, n: nat, from: int, to: int)
    returns (last: nat)
    requires Spaced(marked, hours, v) && n <= |marked| && 0 < MarkedWithin(marked, hours, n, from, to)
    ensures last < n && marked[last] && from <= hours[last] < to
    ensures (MarkedWithin(marked, hours, n, from, to) - 1) * v <= hours[last] - from
    decreases n
  {
    var before := MarkedWithin(marked, hours, n - 1, from, to);
    if !(marked[n - 1] && from <= hours[n - 1] < to) {
      last := MarkedUseHours(marked, hours, v, n - 1, from, to);
    } else if before == 0 {
      last := n - 1;
    } else {
      var previous := MarkedUseHours(marked, hours, v, n - 1, from, to);
      last := n - 1;
      MarkedApart(marked, hours, v, previous, n - 2, n - 1);
      OneMore(before, v);
    }
  }

  /** So within any count of consecutive hours at most ceil(count / v) are marked. */
  lemma MarkedRate(marked: seq<bool>, hours: seq<int>, v: int, from: int, count: nat)
    requires Spaced(marked, hours, v)
    ensures MarkedWithin(marked, hours, |marked|, from, from + count) <= (count + v - 1) / v
  {
    var m := MarkedWithin(marked, hours, |marked|, from, from + count);
    if m == 0 {
      FloorMonotone(0, count + v - 1, v);
    } else {
      var last := MarkedUseHours(marked, hours, v, |marked|, from, from + count);
      OneMore(m, v);
      FloorMonotone(m * v, count + v - 1, v);
      FloorOfMultiple(m, v);
    }
  }

  // ----- and at least -----

  /** A good event is marked once v hours have passed since the start and since every marked one. */
  ghost predicate Prompt(marked: seq<bool>, hours: seq<int>, good: seq<bool>, start: int, v: int) {
    && |marked| == |hours| == |good|
    && forall j :: 0 <= j < |marked| && good[j] && start + v <= hours[j] && Rested(marked, hours, j, v) ==> marked[j]
  }

  ghost predicate Rested(marked: seq<bool>, hours: seq<int>, j: nat, v: int)
    requires j < |marked| == |hours|
  {
    forall p :: 0 <= p < j && marked[p] ==> hours[p] + v <= hours[j]
  }

  ghost predicate GoodIn(hours: seq<int>, good: seq<bool>, hour: int) {
    exists j :: 0 <= j < |hours| && j < |good| && hours[j] == hour && good[j]
  }

  predicate Ascending(hours: seq<int>) {
    forall i, j :: 0 <= i <= j < |hours| ==> hours[i] <= hours[j]
  }

  /** With a good event in its last hour, a block of v hours has a marked one. */
  lemma BlockMarked(marked: seq<bool>, hours: seq<int>, good: seq<bool>, start: int, v: int, hour: int)
    returns (p: nat)
    requires Prompt(marked, hours, good, start, v) && Ascending(hours) && 1 <= v && start < hour
    requires GoodIn(hours, good, hour + v - 1)
    ensures p < |marked| && marked[p] && hour <= hours[p] < hour + v
  {
    var j :| 0 <= j < |hours| && j < |good| && hours[j] == hour + v - 1 && good[j];
    if marked[j] {
      p := j;
    } else {
      p :| 0 <= p < j && marked[p] && hours[j] < hours[p] + v;
    }
  }

  lemma {:induction false} WithinSplits(marked: seq<bool>, hours: seq<int>, n: nat, from: int, mid: int, to: int)
    requires n <= |marked| == |hours| && from <= mid <= to
    ensures MarkedWithin(marked, hours, n, from, to)
         == MarkedWithin(marked, hours, n, from, mid) + MarkedWithin(marked, hours, n, mid, to)
  {
    if 0 < n {
      WithinSplits(marked, hours, n - 1, from, mid, to);
    }
  }

  lemma {:induction false} OneWithin(marked: seq<bool>, hours: seq<int>, n: nat, from: int, to: int, p: nat)
    requires p < n <= |marked| == |hours| && marked[p] && from <= hours[p] < to
    ensures 1 <= MarkedWithin(marked, hours, n, from, to)
  {
    if p < n - 1 {
      OneWithin(marked, hours, n - 1, from, to, p);
    }
  }

  /** So blocks blocks of v hours hold at least that many. */
  lemma {:induction false} BlocksMarked(
    marked: seq<bool>, hours: seq<int>, good: seq<bool>, start: int, v: int, from: int, blocks: nat)
    requires Prompt(marked, hours, good, start, v) && Ascending(hours) && 1 <= v && start < from
    requires forall h :: from <= h < from + blocks * v ==> GoodIn(hours, good, h)
    ensures blocks <= MarkedWithin(marked, hours, |marked|, from, from + blocks * v)
    decreases blocks
  {
    if 0 < blocks {
      var mid := from + (blocks - 1) * v;
      OneMore(blocks, v);
      MulMonotone(0, blocks - 1, v);
      BlocksMarked(marked, hours, good, start, v, from, blocks - 1);
      var p := BlockMarked(marked, hours, good, start, v, mid);
      OneWithin(marked, hours, |marked|, mid, mid + v, p);
      WithinSplits(marked, hours, |marked|, from, mid, mid + v);
    }
  }

  /** And any count of consecutive hours at least floor(count / v). */
  lemma MarkedAtLeast(
    marked: seq<bool>, hours: seq<int>, good: seq<bool>, start: int, v: int, from: int, count: nat)
    requires Prompt(marked, hours, good, start, v) && Ascending(hours) && 1 <= v && start < from
    requires forall h :: from <= h < from + count ==> GoodIn(hours, good, h)
    ensures count / v <= MarkedWithin(marked, hours, |marked|, from, from + count)
  {
    var blocks := count / v;
    assert count == v * blocks + count % v;
    BlocksMarked(marked, hours, good, start, v, from, blocks);
    WithinSplits(marked, hours, |marked|, from, from + blocks * v, from + count);
  }
}
