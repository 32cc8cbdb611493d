// The circuit breaker of the model gateway: three states, a failure counter, the time of the last
// trip, and a lease for the one probe of the half-open state.

module CircuitBreaker {
  import opened Outcomes

  datatype Circuit = Closed | Open | HalfOpen

  datatype Policy = Policy(failureThreshold: nat, recoverySeconds: real)

  datatype Fields = Fields(state: Circuit, failureCount: nat, openedAt: Option<real>, halfOpenInFlight: bool)

  const INITIAL := Fields(Closed, 0, None, false)

  predicate IsPolicy(p: Policy) { p.failureThreshold > 0 && p.recoverySeconds > 0.0 }

  /** What holds between any two calls. */
  predicate Consistent(b: Fields, p: Policy) {
    b.failureCount < p.failureThreshold &&
    (b.halfOpenInFlight ==> b.state.HalfOpen?) &&
    (b.state.Closed? <==> b.openedAt.None?)
  }

  /** The fields after a request for admission, and whether it is granted. */
  function BeforeCall(b: Fields, now: real, p: Policy): (Fields, bool)
    requires b.state.Open? ==> b.openedAt.Some?
  {
    if b.state.Open? && now - b.openedAt.value < p.recoverySeconds then (b, false)
    else
      var b' := if b.state.Open? then b.(state := HalfOpen) else b;
      if b'.state.HalfOpen? then
        if b'.halfOpenInFlight then (b', false) else (b'.(halfOpenInFlight := true), true)
      else (b', true)
  }

  function RecordSuccess(b: Fields): Fields { INITIAL }

  function Trip(b: Fields, now: real): Fields {
    b.(state := Open, openedAt := Some(now), failureCount := 0)
  }

  function RecordFailure(b: Fields, now: real, p: Policy): Fields {
    var b' := b.(halfOpenInFlight := false);
    if b.state.HalfOpen? then Trip(b', now)
    else if b.failureCount + 1 >= p.failureThreshold then Trip(b', now)
    else b'.(failureCount := b.failureCount + 1)
  }

  function RecordAborted(b: Fields): Fields {
    if b.state.HalfOpen? then b.(halfOpenInFlight := false) else b
  }

  /** Whether recording a failure trips the breaker. */
  predicate Trips(b: Fields, p: Policy) {
    b.state.HalfOpen? || b.failureCount + 1 >= p.failureThreshold
  }

  lemma OperationsKeepConsistency(b: Fields, now: real, p: Policy)
    requires IsPolicy(p) && Consistent(b, p)
    ensures Consistent(BeforeCall(b, now, p).0, p)
    ensures Consistent(RecordSuccess(b), p) && Consistent(RecordFailure(b, now, p), p) &&
            Consistent(RecordAborted(b), p)
  {
  }

  /** A call is admitted by a closed breaker, by an open one whose recovery time has passed, and by a
      half-open one whose probe is not out. A refusal changes nothing, and so does admission by a
      closed breaker; every other admission is the probe. */
  lemma AdmissionMeaning(b: Fields, now: real, p: Policy)
    requires Consistent(b, p)
    ensures var (after, admitted) := BeforeCall(b, now, p);
            (admitted <==>
               b.state.Closed? || (b.state.HalfOpen? && !b.halfOpenInFlight) ||
               (b.state.Open? && now >= b.openedAt.value + p.recoverySeconds)) &&
            (after == if admitted && !b.state.Closed? then b.(state := HalfOpen, halfOpenInFlight := true) else b)
  {
  }

  class Breaker {
    const policy: Policy
    var state: Circuit
    var failureCount: nat
    var openedAt: Option<real>
    var halfOpenInFlight: bool

    function View(): Fields
      reads this
    {
      Fields(state, failureCount, openedAt, halfOpenInFlight)
    }

    predicate Valid()
      reads this
    {
      IsPolicy(policy) && Consistent(View(), policy)
    }

    constructor (policy: Policy)
      requires IsPolicy(policy)
      ensures Valid() && View() == INITIAL && this.policy == policy
    {
      this.policy := policy;
      state, failureCount, openedAt, halfOpenInFlight := Closed, 0, None, false;
    }

    method Admit(now: real) returns (admitted: bool)
      requires Valid()
      modifies this
      ensures Valid() && (View(), admitted) == BeforeCall(old(View()), now, policy)
      ensures !admitted ==> View() == old(View()) && !old(state).Closed?
      ensures admitted && !old(state).Closed? ==> state.HalfOpen? && halfOpenInFlight
    {
      if state.Open? {
        if now - openedAt.value < policy.recoverySeconds {
          return false;
        }
        state := HalfOpen;
      }
      if state.HalfOpen? {
        if halfOpenInFlight {
          return false;
        }
        halfOpenInFlight := true;
      }
      admitted := true;
    }

    method Success()
      requires Valid()
      modifies this
      ensures Valid() && View() == RecordSuccess(old(View()))
      ensures state.Closed? && failureCount == 0 && openedAt.None? && !halfOpenInFlight
    {
      state, failureCount, openedAt, halfOpenInFlight := Closed, 0, None, false;
    }

    method Failure(now: real)
      requires Valid()
      modifies this
      ensures Valid() && View() == RecordFailure(old(View()), now, policy)
      ensures old(state).HalfOpen? || old(failureCount) + 1 >= policy.failureThreshold ==>
                state.Open? && openedAt == Some(now) && failureCount == 0
      ensures !old(state).HalfOpen? && old(failureCount) + 1 < policy.failureThreshold ==>
                state == old(state) && openedAt == old(openedAt) && failureCount == old(failureCount) + 1
      ensures !halfOpenInFlight
    {
      halfOpenInFlight := false;
      if state.HalfOpen? {
        OpenNow(now);
        return;
      }
      if failureCount + 1 >= policy.failureThreshold {
        OpenNow(now);
      } else {
        failureCount := failureCount + 1;
      }
    }

    method Aborted()
      requires Valid()
      modifies this
      ensures Valid() && View() == RecordAborted(old(View()))
      ensures !halfOpenInFlight && state == old(state) && failureCount == old(failureCount) &&
              openedAt == old(openedAt)
    {
      if state.HalfOpen? {
        halfOpenInFlight := false;
      }
    }

    method OpenNow(now: real)
      modifies this
      ensures View() == Trip(old(View()), now)
    {
      state, openedAt, failureCount := Open, Some(now), 0;
    }
  }
}
