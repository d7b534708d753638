/** The distributed token bucket: the Lua script as one atomic step on a Redis hash, and what whole
    runs of the script guarantee.

    Lua computes in doubles; the model is exact, which agrees while the products stay below 2^53.
    Times are whole seconds, as AllowN sends them. */
module TokenBucket {
  import opened Arith
  import opened Wrappers

  /** Limiter settings as the script receives them: the window in whole seconds. */
  datatype Config = Config(limit: int, window: int, burst: int) {
    predicate Valid() {
      1 <= limit && 1 <= window && 1 <= burst
    }
  }

  /** The Redis hash behind the key. The script writes both fields together. */
  datatype Bucket = Bucket(tokens: int, lastRefill: int)

  /** One script evaluation: the client's clock and the tokens it asks for. */
  datatype Call = Call(now: int, requested: int)

  predicate WellFormed(calls: seq<Call>) {
    forall k :: 0 <= k < |calls| ==> 1 <= calls[k].requested
  }

  predicate Monotone(calls: seq<Call>) {
    forall i, j :: 0 <= i <= j < |calls| ==> calls[i].now <= calls[j].now
  }

  /** A missing hash reads as a full bucket refilled just now. */
  function Load(cfg: Config, key: Option<Bucket>, now: int): Bucket {
    key.GetOr(Bucket(cfg.burst, now))
  }

  function Refilled(cfg: Config, b: Bucket, now: int): int
    requires cfg.Valid()
  {
    Min(cfg.burst, b.tokens + (now - b.lastRefill) * cfg.limit / cfg.window)
  }

  /** Is the call granted? */
  predicate Allows(cfg: Config, key: Option<Bucket>, c: Call)
    requires cfg.Valid()
  {
    c.requested <= Refilled(cfg, Load(cfg, key, c.now), c.now)
  }

  function Taken(cfg: Config, key: Option<Bucket>, c: Call): int
    requires cfg.Valid()
  {
    if Allows(cfg, key, c) then c.requested else 0
  }

  /** The hash after the call. A denied call also writes the refilled tokens and the clock. */
  function After(cfg: Config, key: Option<Bucket>, c: Call): Bucket
    requires cfg.Valid()
  {
    Bucket(Refilled(cfg, Load(cfg, key, c.now), c.now) - Taken(cfg, key, c), c.now)
  }

  // ----- runs -----

  function Run(cfg: Config, key: Option<Bucket>, calls: seq<Call>): Option<Bucket>
    requires cfg.Valid()
    decreases calls
  {
    if calls == [] then key else Run(cfg, Some(After(cfg, key, calls[0])), calls[1..])
  }

  function Answers(cfg: Config, key: Option<Bucket>, calls: seq<Call>): (r: seq<bool>)
    requires cfg.Valid()
    ensures |r| == |calls|
    decreases calls
  {
    if calls == [] then []
    else [Allows(cfg, key, calls[0])] + Answers(cfg, Some(After(cfg, key, calls[0])), calls[1..])
  }

  /** Tokens handed out over the run. */
  function Granted(cfg: Config, key: Option<Bucket>, calls: seq<Call>): int
    requires cfg.Valid()
    decreases calls
  {
    if calls == [] then 0
    else Taken(cfg, key, calls[0]) + Granted(cfg, Some(After(cfg, key, calls[0])), calls[1..])
  }

  lemma {:induction false} RunSplit(cfg: Config, key: Option<Bucket>, xs: seq<Call>, ys: seq<Call>)
    requires cfg.Valid()
    ensures Run(cfg, key, xs + ys) == Run(cfg, Run(cfg, key, xs), ys)
    ensures Answers(cfg, key, xs + ys) == Answers(cfg, key, xs) + Answers(cfg, Run(cfg, key, xs), ys)
    ensures Granted(cfg, key, xs + ys) == Granted(cfg, key, xs) + Granted(cfg, Run(cfg, key, xs), ys)
    decreases xs
  {
    if xs == [] {
      assert xs + ys == ys;
    } else {
      assert (xs + ys)[0] == xs[0] && (xs + ys)[1..] == xs[1..] + ys;
      RunSplit(cfg, Some(After(cfg, key, xs[0])), xs[1..], ys);
    }
  }

  // ----- the rate bound over any stretch of any run -----

  lemma SpanSplits(cfg: Config, t0: int, t1: int, t2: int)
    requires cfg.Valid()
    ensures (t1 - t0) * cfg.limit / cfg.window + (t2 - t1) * cfg.limit / cfg.window
            <= (t2 - t0) * cfg.limit / cfg.window
  {
    assert (t1 - t0) * cfg.limit + (t2 - t1) * cfg.limit == (t2 - t0) * cfg.limit;
    FloorSum((t1 - t0) * cfg.limit, (t2 - t1) * cfg.limit, cfg.window);
  }

  /** What is left plus what was granted never exceeds what was there plus the refill of the
      whole stretch, floored once; clocks may go backwards. */
  lemma {:induction false} Telescope(cfg: Config, b: Bucket, calls: seq<Call>)
    requires cfg.Valid() && calls != []
    ensures Run(cfg, Some(b), calls).Some?
    ensures Run(cfg, Some(b), calls).value.tokens + Granted(cfg, Some(b), calls)
            <= b.tokens + (calls[|calls| - 1].now - b.lastRefill) * cfg.limit / cfg.window
    decreases calls
  {
    var c := calls[0];
    var b1 := After(cfg, Some(b), c);
    var d0 := (c.now - b.lastRefill) * cfg.limit;
    assert b1.tokens + Taken(cfg, Some(b), c) <= b.tokens + d0 / cfg.window;
    if |calls| == 1 {
      assert Run(cfg, Some(b1), calls[1..]) == Some(b1);
    } else {
      var last := calls[|calls| - 1];
      assert calls[1..][|calls[1..]| - 1] == last;
      Telescope(cfg, b1, calls[1..]);
      SpanSplits(cfg, b.lastRefill, c.now, last.now);
    }
  }

  /** A stretch that starts from any hash: the first call is already capped at burst. */
  lemma StretchBound(cfg: Config, key: Option<Bucket>, calls: seq<Call>)
    requires cfg.Valid() && calls != []
    ensures Run(cfg, key, calls).Some?
    ensures Run(cfg, key, calls).value.tokens + Granted(cfg, key, calls)
            <= cfg.burst + (calls[|calls| - 1].now - calls[0].now) * cfg.limit / cfg.window
  {
    var c := calls[0];
    var b1 := After(cfg, key, c);
    if |calls| == 1 {
      assert Run(cfg, Some(b1), calls[1..]) == Some(b1);
      assert (c.now - c.now) * cfg.limit == 0;
    } else {
      assert calls[1..][|calls[1..]| - 1] == calls[|calls| - 1];
      Telescope(cfg, b1, calls[1..]);
    }
  }

  /** A granted last call leaves no debt behind. */
  lemma {:induction false} LastGrantedLeavesNoDebt(cfg: Config, key: Option<Bucket>, calls: seq<Call>)
    requires cfg.Valid() && calls != []
    requires Answers(cfg, key, calls)[|calls| - 1]
    ensures Run(cfg, key, calls).Some? && 0 <= Run(cfg, key, calls).value.tokens
    decreases calls
  {
    if |calls| > 1 {
      LastGrantedLeavesNoDebt(cfg, Some(After(cfg, key, calls[0])), calls[1..]);
    } else {
      assert Run(cfg, Some(After(cfg, key, calls[0])), calls[1..]) == Some(After(cfg, key, calls[0]));
    }
  }

  /** Tokens granted by calls i..j of a run, both included. */
  function GrantedBetween(cfg: Config, key: Option<Bucket>, calls: seq<Call>, i: nat, j: nat): int
    requires cfg.Valid() && i <= j < |calls|
  {
    Granted(cfg, Run(cfg, key, calls[..i]), calls[i..j + 1])
  }

  /** For every run and every i <= j whose call j is granted, the stretch i..j hands out at most
      burst plus one floored refill, even when client clocks go backwards in between. */
  lemma WindowBound(cfg: Config, key: Option<Bucket>, calls: seq<Call>, i: nat, j: nat)
    requires cfg.Valid() && i <= j < |calls|
    requires Answers(cfg, key, calls)[j]
    ensures GrantedBetween(cfg, key, calls, i, j)
            <= cfg.burst + (calls[j].now - calls[i].now) * cfg.limit / cfg.window
  {
    var start, seg := Run(cfg, key, calls[..i]), calls[i..j + 1];
    assert calls == calls[..i] + (seg + calls[j + 1..]);
    RunSplit(cfg, key, calls[..i], seg + calls[j + 1..]);
    RunSplit(cfg, start, seg, calls[j + 1..]);
    assert Answers(cfg, start, seg)[j - i];
    StretchBound(cfg, start, seg);
    LastGrantedLeavesNoDebt(cfg, start, seg);
  }

  /** The same bound for any stretch when the clock does not go backwards within it. */
  lemma {:induction false} MonotoneBound(cfg: Config, key: Option<Bucket>, calls: seq<Call>)
    requires cfg.Valid() && calls != [] && Monotone(calls)
    ensures Granted(cfg, key, calls)
            <= cfg.burst + (calls[|calls| - 1].now - calls[0].now) * cfg.limit / cfg.window
    decreases calls
  {
    var n := |calls| - 1;
    var span := (calls[n].now - calls[0].now) * cfg.limit;
    assert 0 <= span;
    FloorMonotone(0, span, cfg.window);
    if Answers(cfg, key, calls)[n] {
      StretchBound(cfg, key, calls);
      LastGrantedLeavesNoDebt(cfg, key, calls);
    } else {
      var init := calls[..n];
      assert calls == init + [calls[n]];
      RunSplit(cfg, key, init, [calls[n]]);
      assert Answers(cfg, Run(cfg, key, init), [calls[n]])[0] == Answers(cfg, key, calls)[n];
      if init != [] {
        MonotoneBound(cfg, key, init);
        MulMonotone(init[n - 1].now - init[0].now, calls[n].now - calls[0].now, cfg.limit);
        FloorMonotone((init[n - 1].now - init[0].now) * cfg.limit, span, cfg.window);
      }
    }
  }

  // ----- distance to an ideal, fractional bucket -----

  /** The fractional bucket, scaled by the window, after one call that was granted what the
      script granted. */
  function IdealAfter(cfg: Config, ideal: int, b: Bucket, c: Call): int
    requires cfg.Valid()
  {
    IdealRefilled(cfg, ideal, b, c.now) - cfg.window * Taken(cfg, Some(b), c)
  }

  function Ideal(cfg: Config, ideal: int, b: Bucket, calls: seq<Call>): int
    requires cfg.Valid()
    decreases calls
  {
    if calls == [] then ideal
    else Ideal(cfg, IdealAfter(cfg, ideal, b, calls[0]), After(cfg, Some(b), calls[0]), calls[1..])
  }

  /** How far the script's tokens lag behind the ideal ones, scaled by the window. */
  function Gap(cfg: Config, ideal: int, b: Bucket): int {
    ideal - cfg.window * b.tokens
  }

  /** Capping two amounts at the same level keeps their order and never widens the distance. */
  lemma CapShrinks(x: int, y: int, cap: int)
    requires x <= y
    ensures 0 <= Min(cap, y) - Min(cap, x) <= y - x
  {
  }

  /** What the fractional bucket holds when a call arrives. */
  function IdealRefilled(cfg: Config, ideal: int, b: Bucket, now: int): int {
    Min(cfg.window * cfg.burst, ideal + (now - b.lastRefill) * cfg.limit)
  }

  /** Refilling widens the gap by at most the remainder the floor discards. */
  lemma RefillGap(cfg: Config, ideal: int, b: Bucket, now: int)
    requires cfg.Valid() && 0 <= Gap(cfg, ideal, b)
    ensures var gap := IdealRefilled(cfg, ideal, b, now) - cfg.window * Refilled(cfg, b, now);
            && 0 <= gap <= Gap(cfg, ideal, b) + cfg.window - 1
            && (cfg.limit % cfg.window == 0 && Gap(cfg, ideal, b) == 0 ==> gap == 0)
  {
    var w, a := cfg.window, (now - b.lastRefill) * cfg.limit;
    var q := a / w;
    assert a == w * q + a % w;
    var raw := b.tokens + q;
    assert w * raw == w * b.tokens + w * q;
    CapShrinks(w * raw, ideal + a, w * cfg.burst);
    assert Min(w * cfg.burst, w * raw) == w * Min(cfg.burst, raw) by {
      if raw <= cfg.burst { MulMonotone(raw, cfg.burst, w); } else { MulMonotone(cfg.burst, raw, w); }
    }
    if cfg.limit % w == 0 {
      ExactRate(cfg, now - b.lastRefill);
    }
  }

  lemma IdealStep(cfg: Config, ideal: int, b: Bucket, c: Call)
    requires cfg.Valid() && 0 <= Gap(cfg, ideal, b)
    ensures var gap := Gap(cfg, IdealAfter(cfg, ideal, b, c), After(cfg, Some(b), c));
            && 0 <= gap <= Gap(cfg, ideal, b) + cfg.window - 1
            && (cfg.limit % cfg.window == 0 && Gap(cfg, ideal, b) == 0 ==> gap == 0)
  {
    RefillGap(cfg, ideal, b, c.now);
    var kept, taken := Refilled(cfg, b, c.now), Taken(cfg, Some(b), c);
    assert cfg.window * (kept - taken) == cfg.window * kept - cfg.window * taken;
  }

  lemma Succ(n: int, k: int)
    ensures (n + 1) * k == n * k + k
  {
  }

  /** After k calls the script is behind the ideal by at most k floorings, and never ahead of it;
      when the window divides the limit it is exact. Clocks may go backwards. */
  lemma {:induction false} IdealDistance(cfg: Config, ideal: int, b: Bucket, calls: seq<Call>)
    requires cfg.Valid() && 0 <= Gap(cfg, ideal, b)
    ensures Run(cfg, Some(b), calls).Some?
    ensures var gap := Gap(cfg, Ideal(cfg, ideal, b, calls), Run(cfg, Some(b), calls).value);
            && 0 <= gap <= Gap(cfg, ideal, b) + |calls| * (cfg.window - 1)
            && (cfg.limit % cfg.window == 0 && Gap(cfg, ideal, b) == 0 ==> gap == 0)
    decreases calls
  {
    if calls != [] {
      var rest := calls[1..];
      IdealStep(cfg, ideal, b, calls[0]);
      IdealDistance(cfg, IdealAfter(cfg, ideal, b, calls[0]), After(cfg, Some(b), calls[0]), rest);
      Succ(|rest|, cfg.window - 1);
    }
  }

  /** A bucket created by its first call starts level with the ideal one. */
  lemma FreshRunTracksIdeal(cfg: Config, calls: seq<Call>)
    requires cfg.Valid() && calls != []
    ensures Run(cfg, None, calls).Some?
    ensures var full := Bucket(cfg.burst, calls[0].now);
            var gap := Gap(cfg, Ideal(cfg, cfg.window * cfg.burst, full, calls), Run(cfg, None, calls).value);
            && 0 <= gap <= |calls| * (cfg.window - 1)
            && (cfg.limit % cfg.window == 0 ==> gap == 0)
  {
    var full := Bucket(cfg.burst, calls[0].now);
    assert Load(cfg, None, calls[0].now) == full;
    assert Run(cfg, None, calls) == Run(cfg, Some(full), calls);
    IdealDistance(cfg, cfg.window * cfg.burst, full, calls);
  }

  /** After k calls, a grant is always covered by the ideal bucket, and a denial means that the ideal
      one is short too, or above the request by no more than k + 1 floorings; with a whole-number rate
      script and ideal bucket decide alike. */
  lemma DecisionTracksIdeal(cfg: Config, b: Bucket, calls: seq<Call>, c: Call)
    requires cfg.Valid()
    ensures Run(cfg, Some(b), calls).Some?
    ensures var end := Run(cfg, Some(b), calls).value;
            var ideal := IdealRefilled(cfg, Ideal(cfg, cfg.window * b.tokens, b, calls), end, c.now);
            && (Allows(cfg, Some(end), c) ==> cfg.window * c.requested <= ideal)
            && (!Allows(cfg, Some(end), c) ==> ideal < cfg.window * c.requested + (|calls| + 1) * (cfg.window - 1))
            && (cfg.limit % cfg.window == 0 ==> (Allows(cfg, Some(end), c) <==> cfg.window * c.requested <= ideal))
  {
    IdealDistance(cfg, cfg.window * b.tokens, b, calls);
    var end, ideal := Run(cfg, Some(b), calls).value, Ideal(cfg, cfg.window * b.tokens, b, calls);
    RefillGap(cfg, ideal, end, c.now);
    Succ(|calls|, cfg.window - 1);
    var refilled := Refilled(cfg, end, c.now);
    if Allows(cfg, Some(end), c) {
      MulMonotone(c.requested, refilled, cfg.window);
    } else {
      MulMonotone(refilled + 1, c.requested, cfg.window);
      Succ(refilled, cfg.window);
    }
  }

  lemma ExactRate(cfg: Config, d: int)
    requires cfg.Valid() && cfg.limit % cfg.window == 0
    ensures d * cfg.limit / cfg.window == d * (cfg.limit / cfg.window)
    ensures (d * cfg.limit) % cfg.window == 0
  {
    var rate := cfg.limit / cfg.window;
    assert cfg.limit == rate * cfg.window;
    assert d * cfg.limit == (d * rate) * cfg.window;
    FloorOfMultiple(d * rate, cfg.window);
    assert d * cfg.limit == cfg.window * (d * rate) + (d * cfg.limit) % cfg.window;
  }

  // ----- denied calls -----

  /** Flooring twice loses tokens only once the seconds add up to a whole lost token: with
      remainder rem = limit % window that takes ceil(window / rem) seconds, which bring in this
      many tokens by the whole part of the rate alone. */
  function LagThreshold(cfg: Config): int
    requires cfg.Valid() && cfg.limit % cfg.window != 0
  {
    cfg.limit / cfg.window * LagSeconds(cfg)
  }

  function LagSeconds(cfg: Config): int
    requires cfg.Valid() && cfg.limit % cfg.window != 0
  {
    (cfg.window - 1) / (cfg.limit % cfg.window) + 1
  }

  /** The rate is whole, or the bucket is full before two floors can differ from one. */
  predicate LagStaysHidden(cfg: Config)
    requires cfg.Valid()
  {
    cfg.limit % cfg.window == 0 || cfg.burst <= LagThreshold(cfg)
  }

  lemma LagSecondsAreLeast(cfg: Config, n: int)
    requires cfg.Valid() && cfg.limit % cfg.window != 0
    ensures LagSeconds(cfg) <= n <==> cfg.window <= n * (cfg.limit % cfg.window)
    ensures 2 <= LagSeconds(cfg)
  {
    var rem, m := cfg.limit % cfg.window, LagSeconds(cfg);
    assert cfg.window - 1 == rem * (m - 1) + (cfg.window - 1) % rem;
    assert rem * (m - 1) <= cfg.window - 1 < rem * m by { assert rem * m == rem * (m - 1) + rem; }
    if m <= n {
      MulMonotone(m, n, rem);
    } else {
      MulMonotone(n, m - 1, rem);
    }
    if m <= 1 {
      MulMonotone(m, 1, rem);
    }
  }

  /** The refill of d seconds: the whole part of the rate, and what the remainders add up to. */
  lemma RefillParts(cfg: Config, d: int)
    requires cfg.Valid() && 0 <= d
    ensures d * cfg.limit / cfg.window
         == d * (cfg.limit / cfg.window) + d * (cfg.limit % cfg.window) / cfg.window
    ensures 0 <= d * (cfg.limit % cfg.window) / cfg.window && 0 <= d * (cfg.limit / cfg.window)
  {
    var q, rem := cfg.limit / cfg.window, cfg.limit % cfg.window;
    assert cfg.limit == q * cfg.window + rem;
    assert d * cfg.limit == (d * q) * cfg.window + d * rem;
    FloorOfMultiple(d * q, cfg.window);
    var part := d * rem / cfg.window;
    assert d * rem == cfg.window * part + (d * rem) % cfg.window;
    assert (d * q + part) * cfg.window == (d * q) * cfg.window + cfg.window * part;
    DivUnique(d * cfg.limit, cfg.window, d * q + part);
    FloorMonotone(0, cfg.limit, cfg.window);
    MulMonotone(0, d, rem);
    MulMonotone(0, d, q);
    FloorMonotone(0, d * rem, cfg.window);
  }

  /** The remainders of two stretches add up without loss for fewer than LagSeconds(cfg) seconds. */
  lemma RemaindersAdd(cfg: Config, d1: int, d2: int)
    requires cfg.Valid() && 0 <= d1 && 0 <= d2
    requires cfg.limit % cfg.window == 0 || d1 + d2 < LagSeconds(cfg)
    ensures var rem := cfg.limit % cfg.window;
            d1 * rem / cfg.window == d2 * rem / cfg.window == (d1 + d2) * rem / cfg.window == 0
  {
    var rem := cfg.limit % cfg.window;
    if rem != 0 {
      LagSecondsAreLeast(cfg, d1 + d2);
    }
    MulMonotone(0, d1, rem);
    MulMonotone(0, d2, rem);
    assert (d1 + d2) * rem == d1 * rem + d2 * rem;
    DivUnique(d1 * rem, cfg.window, 0);
    DivUnique(d2 * rem, cfg.window, 0);
    DivUnique((d1 + d2) * rem, cfg.window, 0);
  }

  /** Refilling in two steps or in one gives the same tokens, unless both fill the bucket. */
  lemma TwoRefills(cfg: Config, d1: int, d2: int)
    requires cfg.Valid() && LagStaysHidden(cfg) && 0 <= d1 && 0 <= d2
    ensures var apart := d1 * cfg.limit / cfg.window + d2 * cfg.limit / cfg.window;
            && 0 <= d1 * cfg.limit / cfg.window && 0 <= d2 * cfg.limit / cfg.window
            && (apart == (d1 + d2) * cfg.limit / cfg.window
                || cfg.burst <= apart <= (d1 + d2) * cfg.limit / cfg.window)
  {
    var q := cfg.limit / cfg.window;
    RefillParts(cfg, d1);
    RefillParts(cfg, d2);
    assert (d1 + d2) * q == d1 * q + d2 * q;
    if cfg.limit % cfg.window == 0 || d1 + d2 < LagSeconds(cfg) {
      RefillParts(cfg, d1 + d2);
      RemaindersAdd(cfg, d1, d2);
    } else {
      FloorMonotone(0, cfg.limit, cfg.window);
      MulMonotone(LagSeconds(cfg), d1 + d2, q);
      assert (d1 + d2) * cfg.limit == d1 * cfg.limit + d2 * cfg.limit;
      FloorSum(d1 * cfg.limit, d2 * cfg.limit, cfg.window);
    }
  }

  /** A hash from the past that is not in debt, as every run from a missing hash leaves it. */
  predicate Current(key: Option<Bucket>, now: int) {
    key.Some? ==> 0 <= key.value.tokens && key.value.lastRefill <= now
  }

  /** The denied call leaves no trace in the next call's answer or in the hash after it. */
  lemma DeniedThenCall(cfg: Config, key: Option<Bucket>, denied: Call, c: Call)
    requires cfg.Valid() && LagStaysHidden(cfg)
    requires !Allows(cfg, key, denied)
    requires denied.now <= c.now && Current(key, denied.now)
    ensures var key1 := Some(After(cfg, key, denied));
            Allows(cfg, key1, c) == Allows(cfg, key, c) && After(cfg, key1, c) == After(cfg, key, c)
  {
    var b := Load(cfg, key, denied.now);
    TwoRefills(cfg, denied.now - b.lastRefill, c.now - denied.now);
    assert Refilled(cfg, After(cfg, key, denied), c.now) == Refilled(cfg, b, c.now);
    if key.None? {
      RefillParts(cfg, 0);
    }
  }

  lemma StepKeepsRange(cfg: Config, key: Option<Bucket>, c: Call)
    requires cfg.Valid() && Current(key, c.now)
    ensures 0 <= After(cfg, key, c).tokens
    ensures 1 <= c.requested ==> After(cfg, key, c).tokens <= cfg.burst
  {
    var b := Load(cfg, key, c.now);
    MulMonotone(0, c.now - b.lastRefill, cfg.limit);
    FloorMonotone(0, (c.now - b.lastRefill) * cfg.limit, cfg.window);
  }

  lemma {:induction false} RunKeepsCurrent(cfg: Config, key: Option<Bucket>, calls: seq<Call>, now: int)
    requires cfg.Valid() && Monotone(calls + [Call(now, 1)]) && Current(key, (calls + [Call(now, 1)])[0].now)
    ensures Current(Run(cfg, key, calls), now)
    decreases calls
  {
    if calls != [] {
      var all := calls + [Call(now, 1)];
      assert all[1..] == calls[1..] + [Call(now, 1)];
      assert all[1..][0] == all[1];
      StepKeepsRange(cfg, key, calls[0]);
      RunKeepsCurrent(cfg, Some(After(cfg, key, calls[0])), calls[1..], now);
    }
  }

  /** A denied call changes nothing for whatever follows it. */
  lemma DeniedThenRest(cfg: Config, key: Option<Bucket>, denied: Call, post: seq<Call>)
    requires cfg.Valid() && LagStaysHidden(cfg)
    requires !Allows(cfg, key, denied) && Current(key, denied.now)
    requires post != [] ==> denied.now <= post[0].now
    ensures Answers(cfg, key, [denied] + post) == [false] + Answers(cfg, key, post)
    ensures post != [] ==> Run(cfg, key, [denied] + post) == Run(cfg, key, post)
  {
    assert ([denied] + post)[1..] == post;
    if post != [] {
      DeniedThenCall(cfg, key, denied, post[0]);
    }
  }

  /** Inserting this denied call leaves every other answer, and the hash after later calls. */
  ghost predicate Unnoticed(cfg: Config, pre: seq<Call>, denied: Call, post: seq<Call>)
    requires cfg.Valid()
  {
    && Answers(cfg, None, pre + [denied] + post)
       == Answers(cfg, None, pre) + [false] + Answers(cfg, Run(cfg, None, pre), post)
    && Answers(cfg, None, pre + post) == Answers(cfg, None, pre) + Answers(cfg, Run(cfg, None, pre), post)
    && (post != [] ==> Run(cfg, None, pre + [denied] + post) == Run(cfg, None, pre + post))
  }

  /** A run on a monotone clock from a missing hash, with a denied call in it. */
  predicate Insertion(cfg: Config, pre: seq<Call>, denied: Call, post: seq<Call>)
    requires cfg.Valid()
  {
    && WellFormed(pre + [denied] + post) && Monotone(pre + [denied] + post)
    && !Allows(cfg, Run(cfg, None, pre), denied)
  }

  /** The denied call meets a current hash, and both runs split where it stands. */
  lemma InsertionSplits(cfg: Config, pre: seq<Call>, denied: Call, post: seq<Call>)
    requires cfg.Valid() && Insertion(cfg, pre, denied, post)
    ensures var mid, whole := Run(cfg, None, pre), pre + [denied] + post;
            && Current(mid, denied.now) && (post != [] ==> denied.now <= post[0].now)
            && Answers(cfg, None, whole) == Answers(cfg, None, pre) + Answers(cfg, mid, [denied] + post)
            && Run(cfg, None, whole) == Run(cfg, mid, [denied] + post)
            && Answers(cfg, None, pre + post) == Answers(cfg, None, pre) + Answers(cfg, mid, post)
            && Run(cfg, None, pre + post) == Run(cfg, mid, post)
  {
    var whole := pre + [denied] + post;
    assert whole == pre + ([denied] + post) && whole[|pre|] == denied;
    RunSplit(cfg, None, pre, [denied] + post);
    RunSplit(cfg, None, pre, post);
    forall i, j | 0 <= i <= j <= |pre|
      ensures (pre + [Call(denied.now, 1)])[i].now <= (pre + [Call(denied.now, 1)])[j].now
    {
      assert whole[i].now <= whole[j].now;
    }
    RunKeepsCurrent(cfg, None, pre, denied.now);
    if post != [] {
      assert whole[|pre| + 1] == post[0];
    }
  }

  lemma DeniedCallUnnoticed(cfg: Config, pre: seq<Call>, denied: Call, post: seq<Call>)
    requires cfg.Valid() && LagStaysHidden(cfg) && Insertion(cfg, pre, denied, post)
    ensures Unnoticed(cfg, pre, denied, post)
  {
    InsertionSplits(cfg, pre, denied, post);
    DeniedThenRest(cfg, Run(cfg, None, pre), denied, post);
  }

  /** Denied calls are invisible in every run exactly when the rate is whole or the burst is small
      enough for the bucket to be full before two floors can differ from one. */
  lemma DeniedCallInvisibleIff(cfg: Config)
    requires cfg.Valid()
    ensures LagStaysHidden(cfg)
       <==> forall pre, denied, post | Insertion(cfg, pre, denied, post) :: Unnoticed(cfg, pre, denied, post)
  {
    if LagStaysHidden(cfg) {
      forall pre, denied, post | Insertion(cfg, pre, denied, post) ensures Unnoticed(cfg, pre, denied, post) {
        DeniedCallUnnoticed(cfg, pre, denied, post);
      }
    } else {
      DeniedCallNoticed(cfg);
    }
  }

  /** When the lag shows, LagSeconds(cfg) seconds bring one token more at once than in two parts. */
  lemma LagShows(cfg: Config)
    requires cfg.Valid() && !LagStaysHidden(cfg)
    ensures var q, n := cfg.limit / cfg.window, LagSeconds(cfg);
            && 2 <= n && 0 <= q <= n * q < cfg.burst
            && 1 * cfg.limit / cfg.window == q
            && (n - 1) * cfg.limit / cfg.window == n * q - q
            && n * q + 1 <= n * cfg.limit / cfg.window
  {
    var q, rem, n := cfg.limit / cfg.window, cfg.limit % cfg.window, LagSeconds(cfg);
    LagSecondsAreLeast(cfg, n);
    LagSecondsAreLeast(cfg, n - 1);
    RefillParts(cfg, 1);
    RefillParts(cfg, n);
    RefillParts(cfg, n - 1);
    MulMonotone(0, n - 1, rem);
    DivUnique((n - 1) * rem, cfg.window, 0);
    FloorMonotone(1 * cfg.window, n * rem, cfg.window);
    FloorOfMultiple(1, cfg.window);
    MulMonotone(1, n, q);
    assert (n - 1) * q == n * q - q;
  }

  /** Otherwise: drain the bucket, have a call denied after one second, and ask when the lost
      token would have been there. */
  lemma DeniedCallNoticed(cfg: Config)
    requires cfg.Valid() && !LagStaysHidden(cfg)
    ensures exists pre, denied, post :: Insertion(cfg, pre, denied, post) && !Unnoticed(cfg, pre, denied, post)
  {
    var q, n := cfg.limit / cfg.window, LagSeconds(cfg);
    var drain, denied, late := Call(0, cfg.burst), Call(1, cfg.burst + 1), Call(n, n * q + 1);
    LagShows(cfg);
    RefillParts(cfg, 0);
    var empty, lagging := Some(Bucket(0, 0)), Some(Bucket(q, 1));
    assert Some(After(cfg, None, drain)) == empty;
    assert Some(After(cfg, empty, denied)) == lagging;
    assert Allows(cfg, empty, late) && !Allows(cfg, lagging, late);
    var pre, post := [drain], [late];
    assert pre[1..] == [] && Run(cfg, None, pre) == Run(cfg, empty, []);
    assert Insertion(cfg, pre, denied, post);
    var whole := pre + [denied] + post;
    assert whole[1..] == [denied, late] && whole[1..][1..] == post;
    assert Answers(cfg, None, whole)[2] == Answers(cfg, lagging, post)[0] == false;
    assert !Unnoticed(cfg, pre, denied, post) by {
      assert (Answers(cfg, None, pre) + [false] + Answers(cfg, empty, post))[2] == true;
    }
  }

  // ----- denied calls for one token, the only ones Allow makes -----

  predicate SingleTokens(calls: seq<Call>) {
    forall k :: 0 <= k < |calls| ==> calls[k].requested == 1
  }

  /** When a second refills a token, a call for one is denied only in the second of the last call, so
      the denial rewrites the hash as it was. */
  lemma DeniedSingleToken(cfg: Config, key: Option<Bucket>, denied: Call)
    requires cfg.Valid() && cfg.window <= cfg.limit
    requires denied.requested == 1 && Current(key, denied.now) && !Allows(cfg, key, denied)
    ensures Some(After(cfg, key, denied)) == key
  {
    var b := Load(cfg, key, denied.now);
    var elapsed := denied.now - b.lastRefill;
    if 1 <= elapsed {
      MulMonotone(1, elapsed, cfg.limit);
      FloorMonotone(cfg.window, elapsed * cfg.limit, cfg.window);
      FloorOfMultiple(1, cfg.window);
    } else {
      RefillParts(cfg, 0);
    }
  }

  lemma DeniedSingleUnnoticed(cfg: Config, pre: seq<Call>, denied: Call, post: seq<Call>)
    requires cfg.Valid() && cfg.window <= cfg.limit
    requires Insertion(cfg, pre, denied, post) && denied.requested == 1
    ensures Unnoticed(cfg, pre, denied, post)
  {
    InsertionSplits(cfg, pre, denied, post);
    DeniedSingleToken(cfg, Run(cfg, None, pre), denied);
    assert ([denied] + post)[1..] == post;
  }

  /** Denied calls are invisible in every run of calls for one token exactly when the bucket refills
      at least one token a second. */
  lemma DeniedSingleInvisibleIff(cfg: Config)
    requires cfg.Valid()
    ensures cfg.window <= cfg.limit
       <==> forall pre, denied, post | Insertion(cfg, pre, denied, post) && SingleTokens(pre + [denied] + post) ::
              Unnoticed(cfg, pre, denied, post)
  {
    if cfg.window <= cfg.limit {
      forall pre, denied, post | Insertion(cfg, pre, denied, post) && SingleTokens(pre + [denied] + post)
        ensures Unnoticed(cfg, pre, denied, post)
      {
        assert (pre + [denied] + post)[|pre|] == denied;
        DeniedSingleUnnoticed(cfg, pre, denied, post);
      }
    } else {
      DeniedSingleNoticed(cfg);
    }
  }

  function Drain(n: nat): (calls: seq<Call>)
    ensures |calls| == n
  {
    seq(n, _ => Call(0, 1))
  }

  lemma {:induction false} DrainEmpties(cfg: Config, n: nat)
    requires cfg.Valid() && n <= cfg.burst
    ensures Run(cfg, Some(Bucket(n, 0)), Drain(n)) == Some(Bucket(0, 0))
  {
    if 0 < n {
      RefillParts(cfg, 0);
      assert Drain(n)[0] == Call(0, 1) && Drain(n)[1..] == Drain(n - 1);
      assert After(cfg, Some(Bucket(n, 0)), Call(0, 1)) == Bucket(n - 1, 0);
      DrainEmpties(cfg, n - 1);
    }
  }

  lemma DrainRuns(cfg: Config)
    requires cfg.Valid()
    ensures Run(cfg, None, Drain(cfg.burst)) == Some(Bucket(0, 0))
  {
    var pre := Drain(cfg.burst);
    RefillParts(cfg, 0);
    assert pre[0] == Call(0, 1) && pre[1..] == Drain(cfg.burst - 1);
    assert After(cfg, None, pre[0]) == Bucket(cfg.burst - 1, 0);
    DrainEmpties(cfg, cfg.burst - 1);
  }

  /** On an empty bucket a call after one second is denied, and the one at LagSeconds(cfg) is granted
      only without it. */
  lemma LagCosts(cfg: Config)
    requires cfg.Valid() && cfg.limit < cfg.window
    ensures cfg.limit % cfg.window != 0 && 2 <= LagSeconds(cfg)
    ensures var late := Call(LagSeconds(cfg), 1);
            && Some(After(cfg, Some(Bucket(0, 0)), Call(1, 1))) == Some(Bucket(0, 1))
            && !Allows(cfg, Some(Bucket(0, 0)), Call(1, 1))
            && Allows(cfg, Some(Bucket(0, 0)), late) && !Allows(cfg, Some(Bucket(0, 1)), late)
  {
    assert cfg.limit / cfg.window == 0 && cfg.limit % cfg.window == cfg.limit by {
      DivUnique(cfg.limit, cfg.window, 0);
    }
    LagShows(cfg);
  }

  /** Otherwise: drain the bucket token by token, ask in vain after one second, and ask again when
      the lost token would have been there. */
  lemma DeniedSingleNoticed(cfg: Config)
    requires cfg.Valid() && cfg.limit < cfg.window
    ensures exists pre, denied, post ::
              && Insertion(cfg, pre, denied, post) && SingleTokens(pre + [denied] + post)
              && !Unnoticed(cfg, pre, denied, post)
  {
    LagCosts(cfg);
    DrainRuns(cfg);
    var pre, denied, post := Drain(cfg.burst), Call(1, 1), [Call(LagSeconds(cfg), 1)];
    var empty, lagging := Some(Bucket(0, 0)), Some(Bucket(0, 1));
    assert Insertion(cfg, pre, denied, post) && SingleTokens(pre + [denied] + post);
    InsertionSplits(cfg, pre, denied, post);
    assert ([denied] + post)[1..] == post;
    assert Answers(cfg, empty, [denied] + post) == [false] + Answers(cfg, lagging, post);
    LastAnswersDiffer(Answers(cfg, None, pre), Answers(cfg, lagging, post), Answers(cfg, empty, post));
    assert !Unnoticed(cfg, pre, denied, post);
  }

  lemma LastAnswersDiffer(head: seq<bool>, noticed: seq<bool>, unnoticed: seq<bool>)
    requires noticed == [false] && unnoticed == [true]
    ensures head + ([false] + noticed) != head + [false] + unnoticed
  {
    assert (head + ([false] + noticed))[|head| + 1] == false && (head + [false] + unnoticed)[|head| + 1] == true;
  }

  // ----- expiry -----

  /** The hash together with the moment Redis may drop it, in server milliseconds. */
  datatype Expiring = Expiring(bucket: Bucket, deadline: int)

  /** A script evaluation at a server time; gone says whether Redis had dropped the key by then.
      The client's clock agrees with the server's. */
  datatype TimedCall = TimedCall(ms: int, gone: bool, requested: int) {
    function ToCall(): Call {
      Call(ms / 1000, requested)
    }
  }

  function Surviving(key: Option<Expiring>, gone: bool): Option<Bucket> {
    if gone || key.None? then None else Some(key.value.bucket)
  }

  function TimedAfter(cfg: Config, key: Option<Expiring>, c: TimedCall): Expiring
    requires cfg.Valid()
  {
    Expiring(After(cfg, Surviving(key, c.gone), c.ToCall()), c.ms + 2 * cfg.window * 1000)
  }

  /** Redis keeps a key before its deadline and has dropped it after; at the deadline either. */
  predicate Possible(cfg: Config, key: Option<Expiring>, from: int, calls: seq<TimedCall>)
    requires cfg.Valid()
    decreases calls
  {
    calls == [] ||
    var c := calls[0];
    && from <= c.ms && 1 <= c.requested
    && (key.Some? ==> (c.gone ==> key.value.deadline <= c.ms) && (key.value.deadline < c.ms ==> c.gone))
    && Possible(cfg, Some(TimedAfter(cfg, key, c)), c.ms, calls[1..])
  }

  /** What one call lets a client see: the answer and the tokens left. */
  datatype Observation = Observation(allowed: bool, tokens: int)

  function TimedTrace(cfg: Config, key: Option<Expiring>, calls: seq<TimedCall>): (r: seq<Observation>)
    requires cfg.Valid()
    ensures |r| == |calls|
    decreases calls
  {
    if calls == [] then []
    else
      var c := calls[0];
      var next := TimedAfter(cfg, key, c);
      [Observation(Allows(cfg, Surviving(key, c.gone), c.ToCall()), next.bucket.tokens)]
      + TimedTrace(cfg, Some(next), calls[1..])
  }

  function PlainTrace(cfg: Config, key: Option<Bucket>, calls: seq<TimedCall>): (r: seq<Observation>)
    requires cfg.Valid()
    ensures |r| == |calls|
    decreases calls
  {
    if calls == [] then []
    else
      var c := calls[0];
      var next := After(cfg, key, c.ToCall());
      [Observation(Allows(cfg, key, c.ToCall()), next.tokens)] + PlainTrace(cfg, Some(next), calls[1..])
  }

  /** On every possible run from an empty database, EXPIRE changes nothing a client can see. */
  ghost predicate ExpiryUnobservable(cfg: Config)
    requires cfg.Valid()
  {
    forall from, calls: seq<TimedCall> ::
      Possible(cfg, None, from, calls) ==> TimedTrace(cfg, None, calls) == PlainTrace(cfg, None, calls)
  }

  predicate Synced(cfg: Config, key: Option<Expiring>, from: int) {
    key.Some? ==>
      && key.value.deadline == from + 2 * cfg.window * 1000
      && key.value.bucket.lastRefill == from / 1000
      && 0 <= key.value.bucket.tokens <= cfg.burst
  }

  /** Whatever outlives two windows of refill is full anyway. */
  lemma LongIdleIsFull(cfg: Config, b: Bucket, now: int)
    requires cfg.Valid() && cfg.burst <= 2 * cfg.limit
    requires 0 <= b.tokens && 2 * cfg.window <= now - b.lastRefill
    ensures Refilled(cfg, b, now) == cfg.burst
  {
    MulMonotone(2 * cfg.window, now - b.lastRefill, cfg.limit);
    assert 2 * cfg.window * cfg.limit == 2 * cfg.limit * cfg.window;
    FloorMonotone(2 * cfg.limit * cfg.window, (now - b.lastRefill) * cfg.limit, cfg.window);
    FloorOfMultiple(2 * cfg.limit, cfg.window);
  }

  /** Losing such a hash makes no difference to the next call. */
  lemma ExpiredStep(cfg: Config, b: Bucket, c: Call)
    requires cfg.Valid() && cfg.burst <= 2 * cfg.limit
    requires 0 <= b.tokens && 2 * cfg.window <= c.now - b.lastRefill
    ensures Allows(cfg, None, c) == Allows(cfg, Some(b), c) && After(cfg, None, c) == After(cfg, Some(b), c)
  {
    LongIdleIsFull(cfg, b, c.now);
    assert (c.now - c.now) * cfg.limit == 0;
    assert Refilled(cfg, Load(cfg, None, c.now), c.now) == cfg.burst;
  }

  lemma {:induction false} TracesAgree(cfg: Config, key: Option<Expiring>, from: int, calls: seq<TimedCall>)
    requires cfg.Valid() && cfg.burst <= 2 * cfg.limit
    requires Synced(cfg, key, from) && Possible(cfg, key, from, calls)
    ensures TimedTrace(cfg, key, calls) == PlainTrace(cfg, Surviving(key, false), calls)
    ensures forall o <- TimedTrace(cfg, key, calls) :: 0 <= o.tokens <= cfg.burst
    decreases calls
  {
    if calls != [] {
      var c := calls[0];
      var kept, seen := Surviving(key, false), Surviving(key, c.gone);
      if key.Some? && c.gone {
        ExpiredStep(cfg, key.value.bucket, c.ToCall());
      }
      StepKeepsRange(cfg, seen, c.ToCall());
      TracesAgree(cfg, Some(TimedAfter(cfg, key, c)), c.ms, calls[1..]);
    }
  }

  /** The expiry the script sets is unobservable exactly when two windows refill the whole burst. */
  lemma ExpiryUnobservableIff(cfg: Config)
    requires cfg.Valid()
    ensures ExpiryUnobservable(cfg) <==> cfg.burst <= 2 * cfg.limit
  {
    if cfg.burst <= 2 * cfg.limit {
      forall from, calls: seq<TimedCall> | Possible(cfg, None, from, calls)
        ensures TimedTrace(cfg, None, calls) == PlainTrace(cfg, None, calls)
      {
        TracesAgree(cfg, None, from, calls);
      }
    } else {
      ExpiryObservable(cfg);
    }
  }

  /** Otherwise: drain the bucket, wait until just after the deadline, and ask for burst again. */
  lemma ExpiryObservable(cfg: Config)
    requires cfg.Valid() && 2 * cfg.limit < cfg.burst
    ensures !ExpiryUnobservable(cfg)
  {
    var drain := TimedCall(0, false, cfg.burst);
    var again := TimedCall(2 * cfg.window * 1000 + 1, true, cfg.burst);
    var calls := [drain, again];
    var empty := Expiring(Bucket(0, 0), 2 * cfg.window * 1000);
    assert 0 * cfg.limit / cfg.window == 0 by { FloorOfMultiple(0, cfg.window); }
    assert TimedAfter(cfg, None, drain) == empty;
    assert calls[1..] == [again] && [again][1..] == [];
    assert Possible(cfg, Some(TimedAfter(cfg, Some(empty), again)), again.ms, []);
    assert Possible(cfg, Some(empty), 0, [again]);
    assert Possible(cfg, None, 0, calls);
    assert (2 * cfg.window * 1000 + 1) / 1000 == 2 * cfg.window;
    assert 2 * cfg.window * cfg.limit == 2 * cfg.limit * cfg.window;
    FloorOfMultiple(2 * cfg.limit, cfg.window);
    assert !Allows(cfg, Some(empty.bucket), again.ToCall());
    assert Allows(cfg, None, again.ToCall());
    assert PlainTrace(cfg, None, calls)[1].allowed == Allows(cfg, Some(empty.bucket), again.ToCall());
    assert TimedTrace(cfg, None, calls)[1].allowed == Allows(cfg, None, again.ToCall());
  }
}
