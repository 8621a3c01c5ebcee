/** Running a function behind its breaker, with retries and exponential back-off. */
module FunctionRunner {
  import opened CircuitBreaker
  import opened Wrappers

  datatype FunctionResult = FunctionResult(success: bool, text: string)

  /** What one attempt does: return a result or raise. */
  datatype Outcome = Returned(result: FunctionResult) | Raised(message: string)

  /** `fallback` is what the fallback callable returns, if one is set. */
  datatype Policy = Policy(maxRetries: int, retryDelay: real, fallback: Option<FunctionResult>)

  const DEFAULT_POLICY := Policy(2, 1.0, None)

  const DEFAULT_CONFIG := Config(5, 30.0)

  /**
   One call: whether the name is registered, what each attempt would do, the clock when the breaker
   is asked and the clock when a failure would be recorded.
   */
  datatype Call = Call(known: bool, outcomes: nat -> Outcome, start: real, finish: real)

  function Pow2(n: nat): nat { if n == 0 then 1 else 2 * Pow2(n - 1) }

  /** The seconds slept after attempt `i` has raised. */
  function Backoff(delay: real, i: nat): real { delay * Pow2(i) as real }

  // ----- what a call does to its breaker -----

  /** Sleeps must be shorter than this, 2^63 nanoseconds. */
  const LONGEST_SLEEP: real := 9223372036.854775808

  /** The first power of two that is too large for a float. */
  const TOO_LARGE: nat := 1024

  /** The sleep after attempt `i` does not raise: its length is a float, not negative and not too long. */
  predicate SleepFits(delay: real, i: nat) {
    i < TOO_LARGE && 0.0 <= Backoff(delay, i) < LONGEST_SLEEP
  }

  /** How an execution ends; `Aborted` is a sleep that raises, which leaves `run` before anything is recorded. */
  datatype Ending = Succeeded | Failed | Aborted

  datatype Execution = Execution(attempts: nat, ending: Ending)

  function Limit(p: Policy): nat { if p.maxRetries + 1 < 0 then 0 else p.maxRetries + 1 }

  /** The retry loop from attempt `i` on. */
  function Execute(p: Policy, outcomes: nat -> Outcome, i: nat): (e: Execution)
    requires i <= Limit(p)
    ensures i <= e.attempts <= Limit(p)
    decreases Limit(p) - i
  {
    if i == Limit(p) then Execution(i, Failed)
    else if outcomes(i).Returned? then Execution(i + 1, Succeeded)
    else if i < p.maxRetries && !SleepFits(p.retryDelay, i) then Execution(i + 1, Aborted)
    else Execute(p, outcomes, i + 1)
  }

  function EndingOf(p: Policy, c: Call): Ending { Execute(p, c.outcomes, 0).ending }

  predicate Rejected(cfg: Config, s: Snapshot, c: Call) { AfterRead(cfg, s, c.start).state.Open? }

  /** The call gets as far as the retry loop. */
  predicate Executed(cfg: Config, s: Snapshot, c: Call) { c.known && !Rejected(cfg, s, c) }

  function Attempts(cfg: Config, p: Policy, s: Snapshot, c: Call): nat {
    if Executed(cfg, s, c) then Execute(p, c.outcomes, 0).attempts else 0
  }

  function Recorded(cfg: Config, s: Snapshot, ending: Ending, now: real): Snapshot {
    match ending
    case Succeeded => AfterSuccess(s)
    case Failed => AfterFailure(cfg, s, now)
    case Aborted => s
  }

  /** The breaker after the call. */
  function AfterCall(cfg: Config, p: Policy, s: Snapshot, c: Call): Snapshot {
    if !c.known then s
    else
      var read := AfterRead(cfg, s, c.start);
      if read.state.Open? then read else Recorded(cfg, read, EndingOf(p, c), c.finish)
  }

  /** What the retry loop returns, absent where it raises. */
  function LoopResult(p: Policy, c: Call): Option<FunctionResult> {
    var e := Execute(p, c.outcomes, 0);
    if e.ending.Aborted? then None
    else if e.attempts == 0 then Some(FunctionResult(false, "None"))
    else match c.outcomes(e.attempts - 1)
      case Returned(result) => Some(result)
      case Raised(message) => Some(FunctionResult(false, message))
  }

  class Runner {
    var policies: map<string, Policy>
    var breakers: map<string, Breaker>

    /** Each function name has a breaker of its own. */
    ghost predicate Valid()
      reads this, breakers.Values
    {
      && (forall f, g :: f in breakers && g in breakers && f != g ==> breakers[f] != breakers[g])
      && forall f :: f in breakers ==> breakers[f].config == DEFAULT_CONFIG
    }

    function PolicyOf(name: string): Policy
      reads this
    {
      if name in policies then policies[name] else DEFAULT_POLICY
    }

    /** The breaker of a name, which is fresh until the name is first run. */
    function SnapshotOf(name: string): Snapshot
      reads this, breakers.Values
    {
      if name in breakers then breakers[name].Now() else FRESH
    }

    constructor ()
      ensures Valid() && breakers == map[] && policies == map[]
    {
      policies, breakers := map[], map[];
    }

    method SetPolicy(name: string, policy: Policy)
      requires Valid()
      modifies this`policies
      ensures Valid() && policies == old(policies)[name := policy] && breakers == old(breakers)
    {
      policies := policies[name := policy];
    }

    method EnsureBreaker(name: string) returns (breaker: Breaker)
      requires Valid()
      modifies this`breakers
      ensures Valid() && name in breakers && breakers[name] == breaker
      ensures old(breakers).Keys <= breakers.Keys && forall f :: f in old(breakers) ==> breakers[f] == old(breakers[f])
      ensures breakers.Keys == old(breakers).Keys + {name}
      ensures if name in old(breakers) then breakers == old(breakers) else fresh(breaker)
      ensures breaker.Now() == old(SnapshotOf(name))
    {
      if name in breakers {
        breaker := breakers[name];
      } else {
        breaker := new Breaker(DEFAULT_CONFIG);
        assert forall f :: f in breakers ==> breakers[f] != breaker;
        breakers := breakers[name := breaker];
      }
    }

    /**
     Runs a call: the breaker of its name moves by `AfterCall` and no other breaker moves; the attempts
     made are `Attempts` of them, and `k` attempts sleep the delay 2^(k-1) - 1 times in all. The result is
     absent where a sleep raises.
     */
    method Run(name: string, c: Call)
      returns (result: Option<FunctionResult>, ghost attempts: nat, ghost slept: real)
      requires Valid()
      modifies this`breakers, breakers.Values
      ensures Valid() && policies == old(policies)
      ensures old(PolicyOf(name)) == if name in policies then policies[name] else Policy(2, 1.0, None)
      ensures attempts == Attempts(Config(5, 30.0), old(PolicyOf(name)), old(SnapshotOf(name)), c)
      ensures SnapshotOf(name) == AfterCall(Config(5, 30.0), old(PolicyOf(name)), old(SnapshotOf(name)), c)
      ensures forall f :: f != name ==> SnapshotOf(f) == old(SnapshotOf(f))
      ensures slept == Slept(old(PolicyOf(name)).retryDelay, attempts)
      ensures !c.known ==> result == Some(FunctionResult(false, "Unknown function: " + name))
      ensures c.known && Rejected(Config(5, 30.0), old(SnapshotOf(name)), c) ==>
                result == Some(old(PolicyOf(name)).fallback.GetOr(FunctionResult(false, "Circuit breaker open")))
      ensures Executed(Config(5, 30.0), old(SnapshotOf(name)), c) ==> result == LoopResult(old(PolicyOf(name)), c)
    {
      hide Slept, Pow2, Execute, Recorded, LoopResult;
      SleptStart(PolicyOf(name).retryDelay);
      attempts, slept := 0, 0.0;
      if !c.known {
        return Some(FunctionResult(false, "Unknown function: " + name)), 0, 0.0;
      }
      ghost var others := breakers;
      var breaker := EnsureBreaker(name);
      assert forall f :: f in others && f != name ==> breakers[f] != breaker;
      var policy := PolicyOf(name);
      var open := breaker.IsOpen(c.start);
      if open {
        result := Some(policy.fallback.GetOr(FunctionResult(false, "Circuit breaker open")));
        return;
      }
      result, attempts, slept := RunAttempts(breaker, policy, c);
    }

    /** The retry loop. */
    method RunAttempts(breaker: Breaker, policy: Policy, c: Call)
      returns (result: Option<FunctionResult>, ghost attempts: nat, ghost slept: real)
      modifies breaker
      ensures attempts == Execute(policy, c.outcomes, 0).attempts && slept == Slept(policy.retryDelay, attempts)
      ensures breaker.Now() == Recorded(breaker.config, old(breaker.Now()), EndingOf(policy, c), c.finish)
      ensures result == LoopResult(policy, c)
    {
      attempts, slept := 0, 0.0;
      var lastError := "None";
      var limit := Limit(policy);
      SleptStart(policy.retryDelay);
      hide Slept, Backoff, SleepFits;
      for attempt := 0 to limit
        invariant attempts == attempt && breaker.Now() == old(breaker.Now())
        invariant Execute(policy, c.outcomes, attempt) == Execute(policy, c.outcomes, 0)
        invariant if attempt == 0 then lastError == "None"
                  else c.outcomes(attempt - 1).Raised? && lastError == c.outcomes(attempt - 1).message
        invariant slept == Slept(policy.retryDelay, if attempt < limit then attempt + 1 else attempt)
      {
        attempts := attempt + 1;
        var outcome := c.outcomes(attempt);
        if outcome.Returned? {
          breaker.RecordSuccess();
          return Some(outcome.result), attempts, slept;
        }
        lastError := outcome.message;
        if attempt < policy.maxRetries {
          if !SleepFits(policy.retryDelay, attempt) {
            return None, attempts, slept;
          }
          SleptStep(policy.retryDelay, attempt);
          slept := slept + Backoff(policy.retryDelay, attempt);
        }
      }
      breaker.RecordFailure(c.finish);
      result := Some(FunctionResult(false, lastError));
    }
  }

  /** The back-off of an execution with `attempts` attempts: the delay, 2^(attempts-1) - 1 times. */
  function Slept(delay: real, attempts: nat): real {
    if attempts == 0 then 0.0 else delay * (Pow2(attempts - 1) - 1) as real
  }

  lemma SleptStart(delay: real)
    ensures Slept(delay, 0) == Slept(delay, 1) == 0.0
  {
    assert Pow2(0) == 1;
  }

  lemma SleptStep(delay: real, n: nat)
    ensures Slept(delay, n + 1) + Backoff(delay, n) == Slept(delay, n + 2)
  {
    assert (Pow2(n) - 1) as real + Pow2(n) as real == (Pow2(n + 1) - 1) as real;
  }

  // ----- runs of calls to one function -----

  /** The breaker after a run of calls. */
  function AfterCalls(cfg: Config, p: Policy, s: Snapshot, calls: seq<Call>): Snapshot {
    if calls == [] then s else AfterCall(cfg, p, AfterCalls(cfg, p, s, calls[..|calls| - 1]), calls[|calls| - 1])
  }

  /** Each call starts no earlier than the one before finished, and finishes no earlier than it starts. */
  ghost predicate Monotone(calls: seq<Call>) {
    && (forall i :: 0 <= i < |calls| ==> calls[i].start <= calls[i].finish)
    && (forall i :: 0 <= i < |calls| - 1 ==> calls[i].finish <= calls[i + 1].start)
  }

  /** The failures recorded since the last success; a rejected call is no execution. */
  function FailuresSince(cfg: Config, p: Policy, s: Snapshot, calls: seq<Call>): nat {
    if calls == [] then 0
    else
      var front, c := calls[..|calls| - 1], calls[|calls| - 1];
      var before := FailuresSince(cfg, p, s, front);
      if !Executed(cfg, AfterCalls(cfg, p, s, front), c) then before
      else match EndingOf(p, c)
        case Succeeded => 0
        case Failed => before + 1
        case Aborted => before
  }

  /** All executions since the last success, recorded or not. */
  function UnsuccessfulSince(cfg: Config, p: Policy, s: Snapshot, calls: seq<Call>): nat {
    if calls == [] then 0
    else
      var front, c := calls[..|calls| - 1], calls[|calls| - 1];
      var before := UnsuccessfulSince(cfg, p, s, front);
      if !Executed(cfg, AfterCalls(cfg, p, s, front), c) then before
      else if EndingOf(p, c).Succeeded? then 0
      else before + 1
  }

  /** The breaker is closed exactly when fewer failures than the threshold were recorded since the last success. */
  lemma {:induction false} ClosedBelowThreshold(cfg: Config, p: Policy, calls: seq<Call>)
    requires cfg.failureThreshold >= 1
    ensures var s := AfterCalls(cfg, p, FRESH, calls);
            && s.failureCount == FailuresSince(cfg, p, FRESH, calls)
            && (s.state.Closed? <==> s.failureCount < cfg.failureThreshold)
    decreases |calls|
  {
    if calls != [] {
      ClosedBelowThreshold(cfg, p, calls[..|calls| - 1]);
    }
    hide Execute;
  }

  // ----- when every failure is recorded -----

  /** No sleep that the policy can ask for raises. */
  ghost predicate NeverAborts(p: Policy) {
    forall i: nat :: i < p.maxRetries ==> SleepFits(p.retryDelay, i)
  }

  lemma {:induction false} Pow2Grows(i: nat, j: nat)
    requires i <= j
    ensures 1 <= Pow2(i) <= Pow2(j)
    decreases j
  {
    if i < j {
      Pow2Grows(i, j - 1);
    } else if i > 0 {
      Pow2Grows(i - 1, i - 1);
    }
  }

  lemma Longer(delay: real, m: nat, n: nat)
    requires delay >= 0.0 && m <= n
    ensures 0.0 <= delay * m as real <= delay * n as real
  {
    assert delay * (n as real - m as real) >= 0.0;
  }

  /** The seconds make fewer than two to the power of sixty-three nanoseconds. */
  ghost predicate InNanoseconds(seconds: real) { seconds * 1000000000.0 < 9223372036854775808.0 }

  lemma SleepLimits(seconds: real)
    ensures seconds < LONGEST_SLEEP <==> InNanoseconds(seconds)
    ensures TOO_LARGE == 1024
  {
  }

  lemma BackoffGrows(delay: real, i: nat, last: nat)
    requires i <= last && delay >= 0.0
    ensures 0.0 <= Backoff(delay, i) <= Backoff(delay, last)
  {
    var m, n := Pow2(i), Pow2(last);
    Pow2Grows(i, last);
    assert Backoff(delay, i) == delay * m as real && Backoff(delay, last) == delay * n as real;
    hide *;
    Longer(delay, m, n);
  }

  /** Where the last sleep fits, the earlier ones do. */
  lemma EarlierFits(delay: real, i: nat, last: nat)
    requires i <= last < 1024 && delay >= 0.0 && InNanoseconds(Backoff(delay, last))
    ensures SleepFits(delay, i)
  {
    BackoffGrows(delay, i, last);
    hide Backoff, InNanoseconds;
    SleepLimits(Backoff(delay, i));
    SleepLimits(Backoff(delay, last));
  }

  lemma FirstFits(delay: real)
    requires SleepFits(delay, 0)
    ensures delay >= 0.0
  {
    assert Pow2(0) == 1;
  }

  lemma LastFits(delay: real, last: nat)
    requires SleepFits(delay, last)
    ensures last < 1024 && InNanoseconds(Backoff(delay, last))
  {
    SleepLimits(Backoff(delay, last));
    hide Backoff, Pow2, InNanoseconds;
  }

  /** A policy never aborts exactly when it never retries, or its delay is not negative and its last sleep fits. */
  lemma NeverAbortsMeans(p: Policy)
    ensures NeverAborts(p)
       <==> || p.maxRetries <= 0
            || (p.maxRetries <= 1024 && p.retryDelay >= 0.0
                && InNanoseconds(Backoff(p.retryDelay, p.maxRetries - 1)))
  {
    hide SleepFits, Backoff, InNanoseconds;
    if p.maxRetries > 0 {
      var last: nat := p.maxRetries - 1;
      if NeverAborts(p) {
        FirstFits(p.retryDelay);
        LastFits(p.retryDelay, last);
      } else if last < 1024 && p.retryDelay >= 0.0 && InNanoseconds(Backoff(p.retryDelay, last)) {
        var i: nat :| i < p.maxRetries && !SleepFits(p.retryDelay, i);
        EarlierFits(p.retryDelay, i, last);
        assert false;
      }
    }
  }

  lemma {:induction false} NeverAborted(p: Policy, outcomes: nat -> Outcome, i: nat)
    requires NeverAborts(p) && i <= Limit(p)
    ensures !Execute(p, outcomes, i).ending.Aborted?
    decreases Limit(p) - i
  {
    hide SleepFits;
    if i < Limit(p) { NeverAborted(p, outcomes, i + 1); }
  }

  lemma {:induction false} AllRecorded(cfg: Config, p: Policy, calls: seq<Call>)
    requires NeverAborts(p)
    ensures FailuresSince(cfg, p, FRESH, calls) == UnsuccessfulSince(cfg, p, FRESH, calls)
    decreases |calls|
  {
    if calls != [] {
      AllRecorded(cfg, p, calls[..|calls| - 1]);
      NeverAborted(p, calls[|calls| - 1].outcomes, 0);
      hide Execute, NeverAborts, AfterCalls;
    }
  }

  /** A call of a function that always raises. */
  const RAISING: Call := Call(true, (i: nat) => Raised("failed"), 0.0, 0.0)

  lemma {:induction false} RaisingAborts(p: Policy, i: nat, bad: nat)
    requires i <= bad < p.maxRetries && !SleepFits(p.retryDelay, bad)
    ensures Execute(p, RAISING.outcomes, i).ending.Aborted?
    decreases bad - i
  {
    assert RAISING.outcomes(i).Raised?;
    if SleepFits(p.retryDelay, i) { RaisingAborts(p, i + 1, bad); }
    hide SleepFits;
  }

  /** Under a policy whose sleeps can raise, a function that always raises never opens its breaker. */
  lemma {:induction false} AbortsNeverOpen(cfg: Config, p: Policy, n: nat)
    requires !NeverAborts(p)
    ensures var calls := seq(n, _ => RAISING);
            AfterCalls(cfg, p, FRESH, calls) == FRESH && UnsuccessfulSince(cfg, p, FRESH, calls) == n
  {
    if n > 0 {
      var calls := seq(n, _ => RAISING);
      AbortsNeverOpen(cfg, p, n - 1);
      assert calls[..n - 1] == seq(n - 1, _ => RAISING);
      var bad: nat :| bad < p.maxRetries && !SleepFits(p.retryDelay, bad);
      RaisingAborts(p, 0, bad);
      assert RAISING.known;
      hide Execute, SleepFits, NeverAborts;
    }
  }

  /**
   Closed means fewer unsuccessful executions than the threshold, over every run of calls, exactly under
   the policies whose sleeps never raise.
   */
  lemma ClosedExactlyWhenRecorded(cfg: Config, p: Policy)
    requires cfg.failureThreshold >= 1
    ensures NeverAborts(p) <==>
              forall calls :: AfterCalls(cfg, p, FRESH, calls).state.Closed?
                              <==> UnsuccessfulSince(cfg, p, FRESH, calls) < cfg.failureThreshold
  {
    hide NeverAborts, AfterCalls, UnsuccessfulSince, FailuresSince;
    if NeverAborts(p) {
      forall calls ensures AfterCalls(cfg, p, FRESH, calls).state.Closed?
                           <==> UnsuccessfulSince(cfg, p, FRESH, calls) < cfg.failureThreshold
      {
        ClosedBelowThreshold(cfg, p, calls);
        AllRecorded(cfg, p, calls);
      }
    } else {
      AbortsNeverOpen(cfg, p, cfg.failureThreshold);
      var calls := seq(cfg.failureThreshold, _ => RAISING);
      assert AfterCalls(cfg, p, FRESH, calls).state.Closed?;
    }
  }

  // ----- the open breaker -----

  /** From an opening failure until the timeout has passed, every call is rejected and the breaker stays put. */
  lemma {:induction false} OpenRejects(cfg: Config, p: Policy, s: Snapshot, calls: seq<Call>)
    requires s.state.Open?
    requires forall i :: 0 <= i < |calls| ==> calls[i].start - s.lastFailureTime < cfg.recoveryTimeout
    ensures AfterCalls(cfg, p, s, calls) == s
    ensures forall i :: 0 <= i < |calls| ==> Attempts(cfg, p, AfterCalls(cfg, p, s, calls[..i]), calls[i]) == 0
    decreases |calls|
  {
    if calls != [] {
      var front := calls[..|calls| - 1];
      OpenRejects(cfg, p, s, front);
      forall i | 0 <= i < |calls| ensures Attempts(cfg, p, AfterCalls(cfg, p, s, calls[..i]), calls[i]) == 0 {
        if i < |front| {
          assert front[..i] == calls[..i] && front[i] == calls[i];
        } else {
          assert calls[..i] == front;
        }
      }
    }
  }

  /** A failed execution that reaches the threshold opens the breaker at its finishing time. */
  lemma FailureOpens(cfg: Config, p: Policy, s: Snapshot, c: Call)
    requires Executed(cfg, s, c) && EndingOf(p, c).Failed? && s.failureCount + 1 >= cfg.failureThreshold
    ensures var t := AfterCall(cfg, p, s, c); t.state.Open? && t.lastFailureTime == c.finish
  {
  }

  lemma {:induction false} AfterCallsSplit(cfg: Config, p: Policy, s: Snapshot, a: seq<Call>, b: seq<Call>)
    ensures AfterCalls(cfg, p, s, a + b) == AfterCalls(cfg, p, AfterCalls(cfg, p, s, a), b)
    decreases |b|
  {
    if b == [] {
      assert a + b == a;
    } else {
      assert (a + b)[..|a + b| - 1] == a + b[..|b| - 1];
      AfterCallsSplit(cfg, p, s, a, b[..|b| - 1]);
    }
  }

  lemma {:induction false} StartsInOrder(calls: seq<Call>, k: nat, j: nat)
    requires Monotone(calls) && k < j < |calls|
    ensures calls[k].finish <= calls[j].start
    decreases j - k
  {
    if k + 1 < j {
      StartsInOrder(calls, k + 1, j);
    }
  }

  /** The breaker as call `k` of a run finds it. */
  function Before(cfg: Config, p: Policy, calls: seq<Call>, k: nat): Snapshot
    requires k <= |calls|
  {
    AfterCalls(cfg, p, FRESH, calls[..k])
  }

  /** Call `k` is executed, fails and reaches the threshold. */
  predicate OpeningFailure(cfg: Config, p: Policy, calls: seq<Call>, k: nat)
    requires k < |calls|
  {
    var s := Before(cfg, p, calls, k);
    && Executed(cfg, s, calls[k]) && EndingOf(p, calls[k]).Failed? && s.failureCount + 1 >= cfg.failureThreshold
  }

  lemma BeforeLater(cfg: Config, p: Policy, calls: seq<Call>, k: nat, j: nat)
    requires k < j <= |calls| && OpeningFailure(cfg, p, calls, k)
    requires forall i :: k < i < j ==> calls[i].start - calls[k].finish < cfg.recoveryTimeout
    ensures var s := Before(cfg, p, calls, j); s.state.Open? && s.lastFailureTime == calls[k].finish
  {
    var opening, between := calls[..k + 1], calls[k + 1..j];
    assert opening[..|opening| - 1] == calls[..k] && opening + between == calls[..j];
    FailureOpens(cfg, p, Before(cfg, p, calls, k), calls[k]);
    AfterCallsSplit(cfg, p, FRESH, opening, between);
    OpenRejects(cfg, p, AfterCalls(cfg, p, FRESH, opening), between);
  }

  /**
   On a clock that never runs backwards, no call makes an attempt from an opening failure until the
   timeout has passed since that failure; and the first call after that is attempted.
   */
  lemma ProbeExactlyAfterTimeout(cfg: Config, p: Policy, calls: seq<Call>, k: nat, j: nat)
    requires k < j < |calls| && Monotone(calls) && OpeningFailure(cfg, p, calls, k)
    ensures calls[j].start - calls[k].finish < cfg.recoveryTimeout ==>
              Attempts(cfg, p, Before(cfg, p, calls, j), calls[j]) == 0
    ensures (calls[j].start - calls[k].finish >= cfg.recoveryTimeout && calls[j].known && p.maxRetries >= 0
             && forall i :: k < i < j ==> calls[i].start - calls[k].finish < cfg.recoveryTimeout) ==>
              Attempts(cfg, p, Before(cfg, p, calls, j), calls[j]) > 0
  {
    forall i | k < i < j ensures calls[i].start <= calls[j].start {
      StartsInOrder(calls, i, j);
    }
    if forall i :: k < i < j ==> calls[i].start - calls[k].finish < cfg.recoveryTimeout {
      BeforeLater(cfg, p, calls, k, j);
    }
  }

  /**
   A half-open probe decides: success closes the breaker and clears the count, failure opens it again, and
   an execution that a sleep aborts leaves it half open.
   */
  lemma ProbeDecides(cfg: Config, p: Policy, calls: seq<Call>, probe: Call)
    requires cfg.failureThreshold >= 1
    requires var s := AfterCalls(cfg, p, FRESH, calls); s.state.Open? && Executed(cfg, s, probe)
    ensures var t := AfterCalls(cfg, p, FRESH, calls + [probe]);
            match EndingOf(p, probe)
            case Succeeded => t.state.Closed? && t.failureCount == 0
            case Failed => t.state.Open? && t.lastFailureTime == probe.finish
            case Aborted => t.state.HalfOpen?
  {
    ClosedBelowThreshold(cfg, p, calls);
    assert (calls + [probe])[..|calls|] == calls;
    hide Execute;
  }

  /**
   An execution makes `k` attempts: all before the last raised and were followed by a sleep; the last
   returned, or was the last allowed, or raised before a sleep that raises.
   */
  lemma {:induction false} AttemptsExact(p: Policy, outcomes: nat -> Outcome, i: nat)
    requires i == 0 || i <= p.maxRetries + 1
    ensures var e := Execute(p, outcomes, i);
            && (forall j :: i <= j < e.attempts - 1 ==> outcomes(j).Raised? && SleepFits(p.retryDelay, j))
            && match e.ending
               case Succeeded => e.attempts > i && outcomes(e.attempts - 1).Returned?
               case Failed => e.attempts == (if p.maxRetries < 0 then 0 else p.maxRetries + 1)
                              && (e.attempts > i ==> outcomes(e.attempts - 1).Raised?)
               case Aborted => && e.attempts > i && outcomes(e.attempts - 1).Raised?
                               && e.attempts - 1 < p.maxRetries && !SleepFits(p.retryDelay, e.attempts - 1)
    decreases Limit(p) - i
  {
    hide SleepFits;
    if i < Limit(p) && Execute(p, outcomes, i) == Execute(p, outcomes, i + 1) {
      AttemptsExact(p, outcomes, i + 1);
    }
  }
}
