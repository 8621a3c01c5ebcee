/** The three-state circuit breaker, with the clock reading passed in. */
module CircuitBreaker {
  datatype State = Closed | Open | HalfOpen

  /** The breaker's fields as a value. */
  datatype Snapshot = Snapshot(state: State, failureCount: nat, lastFailureTime: real)

  datatype Config = Config(failureThreshold: int, recoveryTimeout: real)

  const FRESH := Snapshot(Closed, 0, 0.0)

  /** Reading the state lets an open breaker turn half-open. */
  function AfterRead(c: Config, s: Snapshot, now: real): Snapshot {
    if s.state.Open? && now - s.lastFailureTime >= c.recoveryTimeout then s.(state := HalfOpen) else s
  }

  function AfterSuccess(s: Snapshot): Snapshot { s.(state := Closed, failureCount := 0) }

  function AfterFailure(c: Config, s: Snapshot, now: real): Snapshot {
    Snapshot(if s.failureCount + 1 >= c.failureThreshold then Open else s.state, s.failureCount + 1, now)
  }

  class Breaker {
    const config: Config
    var state: State
    var failureCount: nat
    var lastFailureTime: real

    function Now(): Snapshot
      reads this
    {
      Snapshot(state, failureCount, lastFailureTime)
    }

    constructor (config: Config)
      ensures this.config == config && Now() == FRESH
    {
      this.config := config;
      state, failureCount, lastFailureTime := Closed, 0, 0.0;
    }

    method ReadState(now: real) returns (s: State)
      modifies this
      ensures Now() == AfterRead(config, old(Now()), now) && s == state
    {
      if state == Open && now - lastFailureTime >= config.recoveryTimeout {
        state := HalfOpen;
      }
      s := state;
    }

    method IsOpen(now: real) returns (open: bool)
      modifies this
      ensures Now() == AfterRead(config, old(Now()), now) && open == state.Open?
    {
      var s := ReadState(now);
      open := s == Open;
    }

    method RecordSuccess()
      modifies this
      ensures Now() == AfterSuccess(old(Now()))
    {
      failureCount := 0;
      state := Closed;
    }

    method RecordFailure(now: real)
      modifies this
      ensures Now() == AfterFailure(config, old(Now()), now)
    {
      failureCount := failureCount + 1;
      lastFailureTime := now;
      if failureCount >= config.failureThreshold {
        state := Open;
      }
    }
  }
}
