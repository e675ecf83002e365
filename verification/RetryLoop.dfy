/** The executor's control flow: breaker gate, bounded retry loop, one record. */
module RetryLoop {
  import opened Wrappers
  import opened Backoff
  import opened Breaker

  // One attempt's outcome; a transient error may carry a parsed Retry-After, in milliseconds.
  datatype Attempt<T, E> = Success(value: T) | Permanent(error: E) | Transient(error: E, retryAfter: Option<nat>)

  datatype CallResult<T, E> = Returned(value: T) | Failed(error: E) | CircuitOpen

  // What the loop did: its result, how many attempts it made, and what it slept between them.
  datatype Trace<T, E> = Trace(result: CallResult<T, E>, attempts: nat, sleeps: seq<nat>)

  /** The loop from attempt `n` on, over a script of attempt outcomes and jitter draws. */
  function Loop<T, E>(s: Schedule, script: nat -> Attempt<T, E>, units: nat -> real, n: nat): Trace<T, E>
    requires WellFormed(s) && n <= s.maxAttempts
    decreases s.maxAttempts - n
  {
    match script(n)
    case Success(v) => Trace(Returned(v), 1, [])
    case Permanent(e) => Trace(Failed(e), 1, [])
    case Transient(e, after) =>
      match RetryDelay(s, n, units(n), after)
      case GiveUp => Trace(Failed(e), 1, [])
      case Retry(delay) =>
        var rest := Loop(s, script, units, n + 1);
        Trace(rest.result, rest.attempts + 1, [delay] + rest.sleeps)
  }

  method RunLoop<T, E>(s: Schedule, script: nat -> Attempt<T, E>, units: nat -> real)
    returns (t: Trace<T, E>)
    requires WellFormed(s)
    ensures t == Loop(s, script, units, 0)
    ensures t.result != CircuitOpen
  {
    hide RetryDelay;
    var n := 0;
    var sleeps := [];
    while true
      invariant n <= s.maxAttempts && |sleeps| == n
      invariant var rest := Loop(s, script, units, n);
        Loop(s, script, units, 0) == Trace(rest.result, rest.attempts + n, sleeps + rest.sleeps)
      decreases s.maxAttempts - n
    {
      match script(n)
      case Success(v) =>
        assert sleeps + [] == sleeps;
        return Trace(Returned(v), n + 1, sleeps);
      case Permanent(e) =>
        assert sleeps + [] == sleeps;
        return Trace(Failed(e), n + 1, sleeps);
      case Transient(e, after) =>
        match RetryDelay(s, n, units(n), after)
        case GiveUp =>
          assert sleeps + [] == sleeps;
          return Trace(Failed(e), n + 1, sleeps);
        case Retry(delay) =>
          ghost var rest := Loop(s, script, units, n + 1);
          assert sleeps + ([delay] + rest.sleeps) == (sleeps + [delay]) + rest.sleeps;
          sleeps := sleeps + [delay];
          n := n + 1;
    }
  }

  method Execute<T, E>(breaker: Registry, account: string, s: Schedule, script: nat -> Attempt<T, E>,
                       units: nat -> real, admitAt: int, recordAt: int)
    returns (t: Trace<T, E>)
    requires WellFormed(s)
    modifies breaker
    ensures var (admitted, phases) := Admit(breaker.config, old(breaker.phases), account, admitAt);
      if admitted
      then && t == Loop(s, script, units, 0)
           && breaker.phases == Record(breaker.config, phases, account, t.result.Returned?, recordAt)
      else t == Trace(CircuitOpen, 0, []) && breaker.phases == old(breaker.phases)
  {
    var admitted := breaker.AdmitCall(account, admitAt);
    if !admitted {
      return Trace(CircuitOpen, 0, []);
    }
    t := RunLoop(s, script, units);
    breaker.RecordOutcome(account, t.result.Returned?, recordAt);
  }

  /** The attempt the loop stopped on decides the result; every attempt before it was transient;
      and it stopped only for a success, a permanent error, or the last transient error allowed. */
  lemma {:induction false} LoopStopsWhereItShould<T, E>(s: Schedule, script: nat -> Attempt<T, E>, units: nat -> real, n: nat)
    requires WellFormed(s) && n <= s.maxAttempts
    ensures var t := Loop(s, script, units, n);
      && 1 <= t.attempts <= s.maxAttempts + 1 - n
      && (forall j :: n <= j < n + t.attempts - 1 ==> script(j).Transient?)
      && match script(n + t.attempts - 1)
         case Success(v) => t.result == Returned(v)
         case Permanent(e) => t.result == Failed(e)
         case Transient(e, _) => t.result == Failed(e) && t.attempts == s.maxAttempts + 1 - n
    decreases s.maxAttempts - n
  {
    if script(n).Transient? && n < s.maxAttempts {
      LoopStopsWhereItShould(s, script, units, n + 1);
    }
  }

  lemma {:induction false} OnlyTransientUsesAll<T, E>(s: Schedule, script: nat -> Attempt<T, E>, units: nat -> real, n: nat)
    requires WellFormed(s) && n <= s.maxAttempts && forall j :: script(j).Transient?
    ensures Loop(s, script, units, n).attempts == s.maxAttempts + 1 - n
    decreases s.maxAttempts - n
  {
    if n < s.maxAttempts {
      OnlyTransientUsesAll(s, script, units, n + 1);
    }
  }

  ghost predicate NeverRetries<T(!new), E(!new)>(s: Schedule)
    requires WellFormed(s)
  {
    forall script: nat -> Attempt<T, E>, units: nat -> real :: Loop(s, script, units, 0).attempts == 1
  }

  /** The documentation says a bound of zero or one means no retry.  Only zero does: the bound counts
      the retries, not the attempts. */
  lemma NeverRetriesIff<T(!new), E(!new)>(s: Schedule, e: E)
    requires WellFormed(s)
    ensures NeverRetries<T, E>(s) <==> s.maxAttempts == 0
  {
    if s.maxAttempts > 0 {
      var script: nat -> Attempt<T, E> := _ => Transient(e, None);
      var units: nat -> real := _ => 0.0;
      OnlyTransientUsesAll(s, script, units, 0);
    } else {
      forall script: nat -> Attempt<T, E>, units: nat -> real ensures Loop(s, script, units, 0).attempts == 1 {
        LoopStopsWhereItShould(s, script, units, 0);
      }
    }
  }

  function RetryAfterOf<T, E>(a: Attempt<T, E>): Option<nat> {
    if a.Transient? then a.retryAfter else None
  }

  /** Between two attempts the loop sleeps the larger of the server's Retry-After and the jittered
      backoff, exactly. */
  lemma {:induction false} SleepsAreExact<T, E>(s: Schedule, script: nat -> Attempt<T, E>, units: nat -> real, n: nat)
    requires WellFormed(s) && n <= s.maxAttempts
    ensures var t := Loop(s, script, units, n);
      && |t.sleeps| == t.attempts - 1 <= s.maxAttempts - n
      && forall j :: 0 <= j < |t.sleeps| ==>
           Retry(t.sleeps[j]) == RetryDelay(s, n + j, units(n + j), RetryAfterOf(script(n + j)))
    decreases s.maxAttempts - n
  {
    if script(n).Transient? && n < s.maxAttempts {
      SleepsAreExact(s, script, units, n + 1);
      var t, rest := Loop(s, script, units, n), Loop(s, script, units, n + 1);
      forall j | 0 <= j < |t.sleeps|
        ensures Retry(t.sleeps[j]) == RetryDelay(s, n + j, units(n + j), RetryAfterOf(script(n + j)))
      {
        if j > 0 {
          assert t.sleeps[j] == rest.sleeps[j - 1];
          assert n + j == (n + 1) + (j - 1);
        }
      }
    }
  }

  function Sum(xs: seq<nat>): nat {
    if xs == [] then 0 else xs[0] + Sum(xs[1..])
  }

  lemma {:induction false} SumBounded(xs: seq<nat>, cap: nat)
    requires forall i :: 0 <= i < |xs| ==> xs[i] <= cap
    ensures Sum(xs) <= |xs| * cap
  {
    if xs != [] {
      SumBounded(xs[1..], cap);
      assert |xs| * cap == |xs[1..]| * cap + cap;
    }
  }

  lemma ScaleBound(k: nat, m: nat, cap: nat)
    requires k <= m
    ensures k * cap <= m * cap
  {
    assert m * cap == k * cap + (m - k) * cap;
  }

  lemma PlainDelayWithinCap(s: Schedule, n: nat, unit: real, delay: nat)
    requires WellFormed(s) && n < TWO32 && RetryDelay(s, n, unit, None) == Retry(delay)
    ensures delay <= s.capMs.Floor
  {
    hide Ceiling, DelayFor;
    assert delay <= Ceiling(s, n);
  }

  /** With no Retry-After from the server, one call sleeps at most `max_attempts` caps in all. */
  lemma TotalSleepBounded<T, E>(s: Schedule, script: nat -> Attempt<T, E>, units: nat -> real)
    requires WellFormed(s) && forall j :: RetryAfterOf(script(j)) == None
    ensures Sum(Loop(s, script, units, 0).sleeps) <= s.maxAttempts * s.capMs.Floor
  {
    var sleeps := Loop(s, script, units, 0).sleeps;
    SleepsAreExact(s, script, units, 0);
    hide Loop, RetryDelay, Sum;
    forall j | 0 <= j < |sleeps| ensures sleeps[j] <= s.capMs.Floor {
      assert RetryAfterOf(script(j)) == None;
      assert 0 + j == j;
      PlainDelayWithinCap(s, j, units(j), sleeps[j]);
    }
    SumBounded(sleeps, s.capMs.Floor);
    ScaleBound(|sleeps|, s.maxAttempts, s.capMs.Floor);
  }
}
