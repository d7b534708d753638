/** The Go limiter and the Lua script in their own, state-changing form. The object stands for the
    shared Redis hash, its expiry time and the limiter's settings. */
module Limiters {
  import opened Arith
  import opened Calendar
  import opened TokenBucket
  import opened Wrappers

  /** How a Redis call went: answered, failed before it reached Redis, or executed with its reply
      lost. */
  datatype RoundTrip = Answered | NotExecuted | ReplyLost

  class Limiter {
    const limit: int
    const windowNs: int
    const burst: int
    var tokens: Option<int>
    var lastRefill: Option<int>
    var deadline: Option<int>
    /** The script calls since the hash last did not exist. */
    ghost var history: seq<Call>

    /** AllowN truncates the window to whole seconds; below one second nothing is left of it. */
    function Settings(): Config {
      Config(limit, windowNs / SECOND, burst)
    }

    function Key(): Option<Bucket>
      reads this
    {
      if tokens.Some? && lastRefill.Some? then Some(Bucket(tokens.value, lastRefill.value)) else None
    }

    ghost predicate Valid()
      reads this
    {
      && 1 <= limit && 1 <= windowNs && 1 <= burst
      && (tokens.Some? <==> lastRefill.Some?) && (tokens.Some? <==> deadline.Some?)
      && if Settings().window == 0 then Key() == None && history == [] else Key() == Run(Settings(), None, history)
    }

    constructor (limit: int, windowNs: int, burst: int)
      ensures Valid() && Key() == None && history == []
      ensures this.limit == if limit <= 0 then 100 else limit
      ensures this.windowNs == if windowNs <= 0 then SECOND else windowNs
      ensures this.burst == if burst <= 0 then this.limit + 50 else burst
    {
      var actual := limit;
      if limit <= 0 {
        actual := 100;
      }
      this.limit := actual;
      this.windowNs := if windowNs <= 0 then SECOND else windowNs;
      this.burst := if burst <= 0 then actual + 50 else burst;
      tokens, lastRefill, deadline, history := None, None, None, [];
    }

    /** The Lua script, statement by statement. */
    method Script(now: int, serverMs: int, window: int, requested: int) returns (answer: int)
      requires Valid() && window == Settings().window && 1 <= window
      modifies this
      ensures Valid() && history == old(history) + [Call(now, requested)]
      ensures answer == if Allows(Settings(), old(Key()), Call(now, requested)) then 1 else 0
      ensures Key() == Some(After(Settings(), old(Key()), Call(now, requested)))
      ensures deadline == Some(serverMs + window * 2 * 1000)
    {
      ghost var call := Call(now, requested);
      ghost var before := Key();
      RunSplit(Settings(), None, history, [call]);
      assert [call][1..] == [];
      var available := tokens.GetOr(burst);
      var last := lastRefill.GetOr(now);
      var elapsed := now - last;
      var tokensToAdd := elapsed * limit / window;
      available := Min(burst, available + tokensToAdd);
      if available >= requested {
        available := available - requested;
        answer := 1;
      } else {
        answer := 0;
      }
      tokens, lastRefill := Some(available), Some(now);
      deadline := Some(serverMs + window * 2 * 1000);
      history := history + [call];
      assert Run(Settings(), before, [call]) == Some(After(Settings(), before, call));
    }

    /** The script with a window of zero, on a key that does not exist: nothing has elapsed, so the
        division is 0 / 0, which is not a number and loses against burst in math.min; and EXPIRE with
        zero seconds deletes the key again. */
    method ScriptWithoutWindow(requested: int) returns (answer: int)
      requires Valid() && Settings().window == 0
      modifies this
      ensures Valid() && Key() == None
      ensures answer == if requested <= burst then 1 else 0
    {
      var available := tokens.GetOr(burst);
      answer := if available >= requested then 1 else 0;
      tokens, lastRefill, deadline := None, None, None;
    }

    /** A window after its last refill, a hash without debt has limit tokens, or burst if that is less. */
    lemma FullAfterWindow(now: int, n: int)
      requires Valid()
      ensures (&& n <= Min(limit, burst) && SECOND <= windowNs && Key().Some? && 0 <= Key().value.tokens
               && windowNs / SECOND <= now - Key().value.lastRefill) ==> Allows(Settings(), Key(), Call(now, n))
    {
      if SECOND <= windowNs && Key().Some? && windowNs / SECOND <= now - Key().value.lastRefill {
        var window, elapsed := windowNs / SECOND, now - Key().value.lastRefill;
        MulMonotone(window, elapsed, limit);
        FloorOfMultiple(limit, window);
        FloorMonotone(limit * window, elapsed * limit, window);
      }
    }

    /** A request for nothing is granted without touching Redis; any other is one script call, which
        may have happened even when an error comes back. With a window below a second the limiter
        never limits: every request up to burst is granted. */
    method AllowN(now: int, serverMs: int, n: int, trip: RoundTrip) returns (allowed: bool, error: bool)
      requires Valid()
      modifies this
      ensures Valid()
      ensures error <==> 0 < n && !trip.Answered?
      ensures error ==> !allowed
      ensures n <= 0 ==> allowed
      ensures n <= 0 || trip.NotExecuted? ==>
                history == old(history) && Key() == old(Key()) && deadline == old(deadline)
      ensures 0 < n && !trip.NotExecuted? && SECOND <= windowNs ==>
                && history == old(history) + [Call(now, n)]
                && Key() == Some(After(Settings(), old(Key()), Call(now, n)))
                && deadline == Some(serverMs + Settings().window * 2000)
                && (!error ==> allowed == Allows(Settings(), old(Key()), Call(now, n)))
      ensures 0 < n && windowNs < SECOND ==> Key() == None && (!error ==> (allowed <==> n <= burst))
      ensures 0 < n && !trip.NotExecuted? && SECOND <= windowNs ==>
                deadline == Some(serverMs + windowNs / SECOND * 2000)
      ensures (&& 0 < n <= Min(limit, burst) && trip.Answered? && SECOND <= windowNs
               && old(Key()).Some? && 0 <= old(Key()).value.tokens
               && windowNs / SECOND <= now - old(Key()).value.lastRefill) ==> allowed
    {
      if n <= 0 {
        return true, false;
      }
      if trip.NotExecuted? {
        return false, true;
      }
      FullAfterWindow(now, n);
      var answer;
      var window := windowNs / SECOND;
      if window == 0 {
        answer := ScriptWithoutWindow(n);
      } else {
        answer := Script(now, serverMs, window, n);
      }
      if trip.ReplyLost? {
        return false, true;
      }
      return answer == 1, false;
    }

    method Reset(trip: RoundTrip) returns (error: bool)
      requires Valid()
      modifies this
      ensures Valid() && error == !trip.Answered?
      ensures trip.NotExecuted? ==> Key() == old(Key()) && deadline == old(deadline) && history == old(history)
      ensures !trip.NotExecuted? ==> Key() == None && deadline == None && history == []
    {
      if !trip.NotExecuted? {
        tokens, lastRefill, deadline, history := None, None, None, [];
      }
      error := !trip.Answered?;
    }

    /** Redis drops the key once its deadline has passed. */
    method Expire(serverMs: int)
      requires Valid()
      modifies this
      ensures Valid()
      ensures if deadline.Some? then Key() == old(Key()) && deadline == old(deadline) && history == old(history)
              else Key() == None && history == (if old(deadline).Some? then [] else old(history))
      ensures deadline.Some? <==> old(deadline).Some? && serverMs <= old(deadline).value
    {
      if deadline.Some? && deadline.value < serverMs {
        tokens, lastRefill, deadline, history := None, None, None, [];
      }
    }

    /** What the bound says of a live object: since the hash was created, and between any two of
        its calls of which the later was granted, the grants stay within burst plus refill. */
    lemma HistoryWithinBound(i: nat, j: nat)
      requires Valid() && i <= j < |history|
      requires Answers(Settings(), None, history)[j]
      ensures GrantedBetween(Settings(), None, history, i, j)
              <= burst + (history[j].now - history[i].now) * limit / (windowNs / SECOND)
    {
      WindowBound(Settings(), None, history, i, j);
    }
  }
}
