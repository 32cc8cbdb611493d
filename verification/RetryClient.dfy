// Concurrent calls through the resilient model client: a semaphore, bounded retries with delays
// below the deadline, and the shared circuit breaker. A step is one stretch of code between two
// suspension points; a run is any interleaving of such steps of any number of calls.

module RetryClient {
  import opened CircuitBreaker
  import opened Common
  import opened Outcomes

  datatype Kind = Complete | Stream

  /** How a provider call ends without a response. */
  datatype Fault = Retryable | NotRetryable | InnerCircuitOpen | Unexpected

  datatype Reason = GaveUp | Rejected | Succeeded | Faulted(fault: Fault) | Exhausted | DeadlinePassed | Cancelled

  datatype Pc =
    | Waiting
    | Calling(attempt: nat, emitted: bool)
    | Sleeping(after: nat, wakeAt: real)
    | Exited(reason: Reason)

  datatype Call = Call(kind: Kind, deadline: real, pc: Pc)

  datatype RetryPolicy = RetryPolicy(maxAttempts: nat, baseDelay: real, maxDelay: real, maxRetryAfter: real)

  datatype Config = Config(maxConcurrency: nat, retry: RetryPolicy, breaker: Policy)

  predicate IsConfig(c: Config) {
    c.maxConcurrency > 0 && 0 < c.retry.maxAttempts <= 3 && 0.0 < c.retry.baseDelay <= c.retry.maxDelay &&
    c.retry.maxRetryAfter > 0.0 && IsPolicy(c.breaker)
  }

  // ---- Delays ----

  function Power2(n: nat): real { if n == 0 then 1.0 else 2.0 * Power2(n - 1) }

  function Capped(attempt: nat, p: RetryPolicy): real { Min(p.baseDelay * Power2(attempt), p.maxDelay) }

  function Jitter(random: real): real { 0.5 + 0.5 * Min(Max(random, 0.0), 1.0) }

  function RetryDelay(retryAfter: Option<real>, attempt: nat, p: RetryPolicy, random: real): real {
    if retryAfter.Some? && retryAfter.value >= 0.0 then Min(retryAfter.value, p.maxRetryAfter)
    else Capped(attempt, p) * Jitter(random)
  }

  lemma {:induction false} PowerAtLeastOne(n: nat)
    ensures Power2(n) >= 1.0
  {
    if n == 0 {
    } else {
      PowerAtLeastOne(n - 1);
    }
  }

  /** A hint of the provider within the cap is followed to the letter; the computed delay doubles with
      every attempt until it reaches the cap, and random jitter takes away at most half of it. */
  lemma DelayMeaning(retryAfter: Option<real>, attempt: nat, p: RetryPolicy, random: real)
    requires 0.0 < p.baseDelay <= p.maxDelay && p.maxRetryAfter > 0.0
    ensures retryAfter.Some? && 0.0 <= retryAfter.value <= p.maxRetryAfter ==>
              RetryDelay(retryAfter, attempt, p, random) == retryAfter.value
    ensures retryAfter.Some? && retryAfter.value > p.maxRetryAfter ==>
              RetryDelay(retryAfter, attempt, p, random) == p.maxRetryAfter
    ensures Capped(0, p) == p.baseDelay && Capped(attempt + 1, p) == Min(2.0 * Capped(attempt, p), p.maxDelay)
    ensures retryAfter.None? || retryAfter.value < 0.0 ==>
              (random >= 1.0 ==> RetryDelay(retryAfter, attempt, p, random) == Capped(attempt, p)) &&
              (random <= 0.0 ==> 2.0 * RetryDelay(retryAfter, attempt, p, random) == Capped(attempt, p)) &&
              (0.0 <= random <= 1.0 ==>
                 2.0 * RetryDelay(retryAfter, attempt, p, random) == Capped(attempt, p) * (1.0 + random))
  {
    CappedBounds(attempt, p);
    PowerAtLeastOne(attempt);
    Doubling(p.baseDelay, Power2(attempt));
    JitterMeaning(Capped(attempt, p), random);
  }

  lemma Doubling(x: real, y: real)
    ensures x * (2.0 * y) == 2.0 * (x * y)
  {
  }

  lemma JitterMeaning(x: real, random: real)
    ensures random >= 1.0 ==> x * Jitter(random) == x
    ensures random <= 0.0 ==> 2.0 * (x * Jitter(random)) == x
    ensures 0.0 <= random <= 1.0 ==> 2.0 * (x * Jitter(random)) == x * (1.0 + random)
  {
  }

  /** A computed delay is at least half the base delay and at most the cap; a delay asked for by
      the provider is honoured up to its own cap. */
  lemma DelayBounds(retryAfter: Option<real>, attempt: nat, p: RetryPolicy, random: real)
    requires 0.0 < p.baseDelay <= p.maxDelay && p.maxRetryAfter > 0.0
    ensures var d := RetryDelay(retryAfter, attempt, p, random);
            if retryAfter.Some? && retryAfter.value >= 0.0 then 0.0 <= d <= retryAfter.value && d <= p.maxRetryAfter
            else 0.5 * p.baseDelay <= d <= p.maxDelay
  {
    if retryAfter.None? || retryAfter.value < 0.0 {
      CappedBounds(attempt, p);
      JitterRange(random);
      JitteredBounds(Capped(attempt, p), Jitter(random), p.baseDelay, p.maxDelay);
    }
  }

  lemma JitterRange(random: real)
    ensures 0.5 <= Jitter(random) <= 1.0
  {
  }

  lemma CappedBounds(attempt: nat, p: RetryPolicy)
    requires 0.0 < p.baseDelay <= p.maxDelay
    ensures p.baseDelay <= Capped(attempt, p) <= p.maxDelay
  {
    PowerAtLeastOne(attempt);
    AtLeastItself(p.baseDelay, Power2(attempt));
  }

  lemma AtLeastItself(x: real, factor: real)
    requires 0.0 < x && 1.0 <= factor
    ensures x <= x * factor
  {
    assert 0.0 <= x * (factor - 1.0);
  }

  lemma ProductNotNegative(x: real, y: real)
    requires 0.0 <= x && 0.0 <= y
    ensures 0.0 <= x * y
  {
  }

  lemma JitteredBounds(x: real, jitter: real, low: real, high: real)
    requires 0.0 < low <= x <= high && 0.5 <= jitter <= 1.0
    ensures 0.5 * low <= x * jitter <= high
  {
    ProductNotNegative(x, 1.0 - jitter);
    ProductNotNegative(x, jitter - 0.5);
  }

  // ---- The breaker as the calls share it ----

  datatype Event = Failed(when: real) | Tripped(at: real) | Recovered | Admitted(call: nat, time: real)

  /** The breaker with what has happened to it: who holds the probe lease, and a log. */
  datatype Shared = Shared(fields: Fields, owner: Option<nat>, clock: real, log: seq<Event>)

  function Admit(sh: Shared, c: nat, now: real, p: Policy): (Shared, bool)
    requires Consistent(sh.fields, p)
  {
    var (fields, admitted) := BeforeCall(sh.fields, now, p);
    if !admitted then (sh.(fields := fields, clock := now), false)
    else (Shared(fields, if fields.state.HalfOpen? then Some(c) else sh.owner, now, sh.log + [Admitted(c, now)]), true)
  }

  function Succeed(sh: Shared): Shared {
    Shared(RecordSuccess(sh.fields), None, sh.clock, sh.log + [Recovered])
  }

  function Fail(sh: Shared, now: real, p: Policy): Shared {
    Shared(RecordFailure(sh.fields, now, p), None, now, LogOfFailure(sh.log, now, Trips(sh.fields, p)))
  }

  function LogOfFailure(log: seq<Event>, now: real, trips: bool): seq<Event> {
    if trips then log + [Failed(now)] + [Tripped(now)] else log + [Failed(now)]
  }

  function Abort(sh: Shared): Shared {
    sh.(fields := RecordAborted(sh.fields), owner := if sh.fields.state.HalfOpen? then None else sh.owner)
  }

  /** The last trip that no success has followed. */
  function OpenTrip(log: seq<Event>): Option<real> {
    if log == [] then None
    else match log[|log| - 1]
      case Tripped(at) => Some(at)
      case Recovered => None
      case Admitted(_, _) => OpenTrip(log[..|log| - 1])
      case Failed(_) => OpenTrip(log[..|log| - 1])
  }

  /** The failures recorded since the last success or trip. */
  function FailuresInARow(log: seq<Event>): nat {
    if log == [] then 0
    else match log[|log| - 1]
      case Failed(_) => FailuresInARow(log[..|log| - 1]) + 1
      case Admitted(_, _) => FailuresInARow(log[..|log| - 1])
      case Tripped(_) => 0
      case Recovered => 0
  }

  ghost predicate TimesBelow(log: seq<Event>, clock: real) {
    forall i :: 0 <= i < |log| && log[i].Tripped? ==> log[i].at <= clock
  }

  /** No admission within the recovery time after a trip, unless a success came in between. */
  ghost predicate Spaced(log: seq<Event>, p: Policy) {
    forall i, j :: 0 <= i < j < |log| && log[i].Tripped? && log[j].Admitted? && NoRecovery(log, i, j) ==>
      log[j].time >= log[i].at + p.recoverySeconds
  }

  ghost predicate NoRecovery(log: seq<Event>, i: nat, j: nat)
    requires i <= j <= |log|
  {
    forall k :: i < k < j ==> !log[k].Recovered?
  }

  ghost predicate SharedInv(sh: Shared, p: Policy) {
    Consistent(sh.fields, p) &&
    (sh.owner.Some? <==> sh.fields.halfOpenInFlight) &&
    OpenTrip(sh.log) == sh.fields.openedAt && FailuresInARow(sh.log) == sh.fields.failureCount &&
    (sh.fields.openedAt.Some? ==> sh.fields.openedAt.value <= sh.clock) &&
    (sh.fields.state.HalfOpen? ==> sh.fields.openedAt.value + p.recoverySeconds <= sh.clock) &&
    LogInv(sh.log, sh.clock, p)
  }

  ghost predicate LogInv(log: seq<Event>, clock: real, p: Policy) {
    TimesBelow(log, clock) && TripsOrdered(log) && Spaced(log, p)
  }

  ghost predicate TripsOrdered(log: seq<Event>) {
    forall i, j :: 0 <= i < j < |log| && log[i].Tripped? && log[j].Tripped? ==> log[i].at <= log[j].at
  }

  /** Any trip not followed by a success is at most as late as the open trip. */
  lemma {:induction false} OpenTripIsLatest(log: seq<Event>, i: nat)
    requires i < |log| && log[i].Tripped? && NoRecovery(log, i, |log|) && TripsOrdered(log)
    ensures OpenTrip(log).Some? && log[i].at <= OpenTrip(log).value
  {
    var n := |log| - 1;
    if i < n && (log[n].Admitted? || log[n].Failed?) {
      OpenTripIsLatest(log[..n], i);
    } else if i < n {
      assert !log[n].Recovered?;
    }
  }

  /** An admission that the recovery time allows keeps the admissions spaced. */
  lemma AdmissionSpaced(sh: Shared, c: nat, now: real, p: Policy)
    requires SharedInv(sh, p) && now >= sh.clock
    requires sh.fields.state.Open? ==> now - sh.fields.openedAt.value >= p.recoverySeconds
    requires sh.fields.state.HalfOpen? ==> Admit(sh, c, now, p).1
    requires IsPolicy(p)
    ensures Spaced(sh.log + [Admitted(c, now)], p) && LogInv(sh.log + [Admitted(c, now)], now, p)
  {
    var log := sh.log + [Admitted(c, now)];
    assert log[..|sh.log|] == sh.log;
    forall i, j | 0 <= i < j < |log| && log[i].Tripped? && log[j].Admitted? && NoRecovery(log, i, j)
      ensures log[j].time >= log[i].at + p.recoverySeconds
    {
      assert forall k :: i < k < j ==> log[k] == sh.log[k];
      if j < |sh.log| {
        assert NoRecovery(sh.log, i, j);
      } else {
        OpenTripIsLatest(sh.log, i);
      }
    }
  }

  lemma AdmitKeeps(sh: Shared, c: nat, now: real, p: Policy)
    requires SharedInv(sh, p) && IsPolicy(p) && now >= sh.clock
    ensures var (after, admitted) := Admit(sh, c, now, p);
            SharedInv(after, p) && after.clock == now &&
            (admitted ==> !sh.fields.halfOpenInFlight && !after.fields.state.Open? &&
                          (after.owner == Some(c) <==> after.fields.state.HalfOpen? || sh.owner == Some(c))) &&
            (!admitted ==> after == sh.(clock := now))
  {
    if Admit(sh, c, now, p).1 {
      AdmissionSpaced(sh, c, now, p);
      LastEvent(sh.log, Admitted(c, now));
    }
  }

  /** A failure, a trip or a success at the end of the log. */
  lemma LogGrowsQuietly(log: seq<Event>, e: Event, clock: real, now: real, p: Policy)
    requires LogInv(log, clock, p) && !e.Admitted? && clock <= now && (e.Tripped? ==> e.at == now)
    ensures LogInv(log + [e], now, p)
  {
    var after := log + [e];
    forall i, j | 0 <= i < j < |after| && after[i].Tripped? && after[j].Admitted? && NoRecovery(after, i, j)
      ensures after[j].time >= after[i].at + p.recoverySeconds
    {
      assert forall k :: i < k < j ==> after[k] == log[k];
      assert NoRecovery(log, i, j);
    }
  }

  lemma LastEvent(log: seq<Event>, e: Event)
    ensures OpenTrip(log + [e]) ==
            match e case Tripped(at) => Some(at) case Recovered => None case _ => OpenTrip(log)
    ensures FailuresInARow(log + [e]) ==
            match e case Failed(_) => FailuresInARow(log) + 1 case Admitted(_, _) => FailuresInARow(log) case _ => 0
  {
    assert (log + [e])[..|log|] == log;
  }

  lemma FailKeeps(sh: Shared, now: real, p: Policy)
    requires SharedInv(sh, p) && IsPolicy(p) && now >= sh.clock
    ensures SharedInv(Fail(sh, now, p), p)
  {
    FailureIsLogged(sh.log, sh.clock, now, Trips(sh.fields, p), p);
  }

  lemma FailureIsLogged(log: seq<Event>, clock: real, now: real, trips: bool, p: Policy)
    requires LogInv(log, clock, p) && clock <= now
    ensures var after := LogOfFailure(log, now, trips);
            LogInv(after, now, p) &&
            OpenTrip(after) == (if trips then Some(now) else OpenTrip(log)) &&
            FailuresInARow(after) == if trips then 0 else FailuresInARow(log) + 1
  {
    LogGrowsQuietly(log, Failed(now), clock, now, p);
    LastEvent(log, Failed(now));
    if trips {
      LogGrowsQuietly(log + [Failed(now)], Tripped(now), now, now, p);
      LastEvent(log + [Failed(now)], Tripped(now));
    }
  }

  lemma RecordsKeep(sh: Shared, now: real, p: Policy)
    requires SharedInv(sh, p) && IsPolicy(p) && now >= sh.clock
    ensures SharedInv(Succeed(sh), p) && SharedInv(Fail(sh, now, p), p) && SharedInv(Abort(sh), p)
  {
    LogGrowsQuietly(sh.log, Recovered, sh.clock, sh.clock, p);
    LastEvent(sh.log, Recovered);
    FailKeeps(sh, now, p);
  }

  // ---- The calls ----

  datatype System = System(free: nat, calls: map<nat, Call>, shared: Shared)

  datatype Action =
    | GiveUp(c: nat)
    | Begin(c: nat, now: real, wall: real)
    | Emit(c: nat)
    | Respond(c: nat)
    | Break(c: nat, fault: Fault, now: real, later: real, wall: real, retryAfter: Option<real>, random: real)
    | Cancel(c: nat)
    | Wake(c: nat, now: real, wall: real)
    | SleepTimeout(c: nat)

  /** A call leaves, returning its permit. */
  function Leave(s: System, c: nat, sh: Shared, reason: Reason): System
    requires c in s.calls
  {
    System(s.free + 1, s.calls[c := s.calls[c].(pc := Exited(reason))], sh)
  }

  function Move(s: System, c: nat, sh: Shared, pc: Pc): System
    requires c in s.calls
  {
    System(s.free, s.calls[c := s.calls[c].(pc := pc)], sh)
  }

  /** Everything the breaker is asked after a provider call broke: `None` for the wait ahead means
      that the call leaves for the given reason. */
  function AfterFault(s: System, a: Action, cfg: Config): (System, bool)
    requires a.Break? && a.c in s.calls && s.calls[a.c].pc.Calling? && Consistent(s.shared.fields, cfg.breaker) &&
             IsPolicy(cfg.breaker)
  {
    var call := s.calls[a.c];
    var k := call.pc.attempt;
    match call.kind
    case Complete =>
      if !a.fault.Retryable? then (Leave(s, a.c, s.shared, Faulted(a.fault)), false)
      else AfterRetryable(s, a, cfg, k, Fail(s.shared, a.now, cfg.breaker))
    case Stream =>
      if a.fault.InnerCircuitOpen? then (Leave(s, a.c, s.shared, Faulted(a.fault)), false)
      else
        var failed := Fail(s.shared, a.now, cfg.breaker);
        if call.pc.emitted || !a.fault.Retryable? then (Leave(s, a.c, failed, Faulted(a.fault)), false)
        else AfterRetryable(s, a, cfg, k, failed)
  }

  /** After a recorded failure: leave when the attempts are used up, ask for admission again, and
      sleep only if the delay ends before the deadline. A stream gives the lease back at once. */
  function AfterRetryable(s: System, a: Action, cfg: Config, k: nat, failed: Shared): (System, bool)
    requires a.Break? && a.c in s.calls && Consistent(failed.fields, cfg.breaker)
  {
    if k + 1 >= cfg.retry.maxAttempts then (Leave(s, a.c, failed, Exhausted), false)
    else
      var (asked, admitted) := Admit(failed, a.c, a.later, cfg.breaker);
      if !admitted then (Leave(s, a.c, asked, Rejected), false)
      else
        var kept := if s.calls[a.c].kind.Stream? then Abort(asked) else asked;
        var delay := RetryDelay(a.retryAfter, k, cfg.retry, a.random);
        if delay >= s.calls[a.c].deadline - a.wall then (Leave(s, a.c, kept, DeadlinePassed), true)
        else (Move(s, a.c, kept, Sleeping(k, a.wall + delay)), true)
  }

  /** The step an action denotes, when it can be taken. */
  function Apply(s: System, a: Action, cfg: Config): Option<System>
    requires Consistent(s.shared.fields, cfg.breaker) && IsPolicy(cfg.breaker)
  {
    if a.c !in s.calls then None
    else
      var call := s.calls[a.c];
      match a
      case GiveUp(c) =>
        if call.pc.Waiting? then Some(s.(calls := s.calls[c := call.(pc := Exited(GaveUp))])) else None
      case Begin(c, now, wall) =>
        if !call.pc.Waiting? || s.free == 0 || now < s.shared.clock then None
        else
          var taken := s.(free := s.free - 1);
          var (asked, admitted) := Admit(s.shared, c, now, cfg.breaker);
          if !admitted then Some(Leave(taken, c, asked, Rejected))
          else if call.kind.Complete? && call.deadline <= wall then Some(Leave(taken, c, asked, DeadlinePassed))
          else Some(Move(taken, c, asked, Calling(0, false)))
      case Emit(c) =>
        if call.pc.Calling? && call.kind.Stream? then Some(Move(s, c, s.shared, Calling(call.pc.attempt, true)))
        else None
      case Respond(c) =>
        if call.pc.Calling? then Some(Leave(s, c, Succeed(s.shared), Succeeded)) else None
      case Break(c, _, now, later, _, _, _) =>
        if call.pc.Calling? && s.shared.clock <= now <= later then Some(AfterFault(s, a, cfg).0) else None
      case Cancel(c) =>
        if call.pc.Calling? && call.kind.Stream? then Some(Leave(s, c, Abort(s.shared), Cancelled))
        else if call.pc.Calling? || call.pc.Sleeping? then Some(Leave(s, c, s.shared, Cancelled))
        else None
      case Wake(c, now, wall) =>
        if !call.pc.Sleeping? || now < s.shared.clock then None
        else if call.kind.Complete? then
          if call.deadline <= wall then Some(Leave(s, c, s.shared, DeadlinePassed))
          else Some(Move(s, c, s.shared, Calling(call.pc.after + 1, false)))
        else
          var (asked, admitted) := Admit(s.shared, c, now, cfg.breaker);
          if !admitted then Some(Leave(s, c, asked, Rejected))
          else Some(Move(s, c, asked, Calling(call.pc.after + 1, false)))
      case SleepTimeout(c) =>
        if call.pc.Sleeping? then Some(Leave(s, c, s.shared, DeadlinePassed)) else None
  }

  // ---- The invariant ----

  predicate Holds(call: Call) { call.pc.Calling? || call.pc.Sleeping? }

  /** The calls holding a permit. */
  function Holders(calls: map<nat, Call>): set<nat> {
    set c | c in calls && Holds(calls[c])
  }

  /** A call the breaker has admitted and that has not yet reported back. */
  predicate IsAdmitted(call: Call) {
    call.pc.Calling? || (call.pc.Sleeping? && call.kind.Complete?)
  }

  /** The ways a call may leave without giving back a lease it holds. */
  predicate LeavesLease(kind: Kind, reason: Reason) {
    match kind
    case Complete => reason.Cancelled? || reason.DeadlinePassed? || (reason.Faulted? && !reason.fault.Retryable?)
    case Stream => reason == Faulted(InnerCircuitOpen)
  }

  predicate CallInv(call: Call, cfg: Config) {
    match call.pc
    case Calling(k, _) => k < cfg.retry.maxAttempts
    case Sleeping(k, wakeAt) => k + 1 < cfg.retry.maxAttempts && wakeAt < call.deadline
    case _ => true
  }

  ghost predicate OwnerInv(calls: map<nat, Call>, owner: Option<nat>) {
    owner.Some? ==>
      owner.value in calls &&
      var call := calls[owner.value];
      IsAdmitted(call) || (call.pc.Exited? && LeavesLease(call.kind, call.pc.reason))
  }

  ghost predicate Inv(s: System, cfg: Config) {
    SharedInv(s.shared, cfg.breaker) &&
    s.free + |Holders(s.calls)| == cfg.maxConcurrency &&
    (forall c :: c in s.calls ==> CallInv(s.calls[c], cfg)) &&
    OwnerInv(s.calls, s.shared.owner)
  }

  ghost predicate IsStart(s: System, cfg: Config) {
    s.free == cfg.maxConcurrency && (forall c :: c in s.calls ==> s.calls[c].pc.Waiting?) &&
    s.shared.fields == INITIAL && s.shared.owner == None && s.shared.log == []
  }

  lemma StartSatisfies(s: System, cfg: Config)
    requires IsStart(s, cfg) && IsConfig(cfg)
    ensures Inv(s, cfg)
  {
    assert Holders(s.calls) == {};
  }

  /** Changing one call changes the holders by that call only. */
  lemma HoldersUpdate(calls: map<nat, Call>, c: nat, pc: Pc)
    requires c in calls
    ensures var after := calls[c := calls[c].(pc := pc)];
            |Holders(after)| == |Holders(calls)| - (if Holds(calls[c]) then 1 else 0) +
            (if Holds(after[c]) then 1 else 0)
  {
    var after := calls[c := calls[c].(pc := pc)];
    var rest := Holders(calls) - {c};
    assert Holders(calls) == if Holds(calls[c]) then rest + {c} else rest;
    assert Holders(after) == if Holds(after[c]) then rest + {c} else rest;
  }

  lemma LeaveKeeps(s: System, c: nat, sh: Shared, reason: Reason, cfg: Config)
    requires c in s.calls && Holds(s.calls[c]) && s.free + |Holders(s.calls)| == cfg.maxConcurrency
    requires forall d :: d in s.calls ==> CallInv(s.calls[d], cfg)
    requires SharedInv(sh, cfg.breaker)
    requires sh.owner == Some(c) ==> LeavesLease(s.calls[c].kind, reason)
    requires sh.owner != Some(c) ==> OwnerInv(s.calls, sh.owner)
    ensures Inv(Leave(s, c, sh, reason), cfg)
  {
    HoldersUpdate(s.calls, c, Exited(reason));
  }

  lemma MoveKeeps(s: System, c: nat, sh: Shared, pc: Pc, cfg: Config)
    requires c in s.calls && Holds(s.calls[c]) && s.free + |Holders(s.calls)| == cfg.maxConcurrency
    requires forall d :: d in s.calls ==> CallInv(s.calls[d], cfg)
    requires SharedInv(sh, cfg.breaker) && Holds(s.calls[c].(pc := pc)) && CallInv(s.calls[c].(pc := pc), cfg)
    requires sh.owner == Some(c) ==> IsAdmitted(s.calls[c].(pc := pc))
    requires sh.owner != Some(c) ==> OwnerInv(s.calls, sh.owner)
    ensures Inv(Move(s, c, sh, pc), cfg)
  {
    HoldersUpdate(s.calls, c, pc);
  }

  lemma BeginKeeps(s: System, a: Action, cfg: Config)
    requires Inv(s, cfg) && IsConfig(cfg) && a.Begin? && Apply(s, a, cfg).Some?
    ensures Inv(Apply(s, a, cfg).value, cfg)
  {
    AdmitKeeps(s.shared, a.c, a.now, cfg.breaker);
    var t := Apply(s, a, cfg).value;
    HoldersUpdate(s.calls, a.c, t.calls[a.c].pc);
  }

  /** A request for admission when nobody holds the lease. */
  lemma AskedAgain(failed: Shared, c: nat, now: real, p: Policy)
    requires SharedInv(failed, p) && IsPolicy(p) && failed.owner == None && failed.clock <= now
    ensures var (asked, admitted) := Admit(failed, c, now, p);
            SharedInv(asked, p) && (!admitted ==> asked.owner == None) &&
            (asked.owner == None || (asked.owner == Some(c) && asked.fields.state.HalfOpen?))
  {
    AdmitKeeps(failed, c, now, p);
  }

  lemma AfterReadmission(s: System, a: Action, cfg: Config, failed: Shared)
    requires a.Break? && a.c in s.calls && s.calls[a.c].pc.Calling? && SharedInv(failed, cfg.breaker)
    requires s.calls[a.c].pc.attempt + 1 < cfg.retry.maxAttempts && Admit(failed, a.c, a.later, cfg.breaker).1
    ensures var k := s.calls[a.c].pc.attempt;
            var asked := Admit(failed, a.c, a.later, cfg.breaker).0;
            var kept := if s.calls[a.c].kind.Stream? then Abort(asked) else asked;
            var delay := RetryDelay(a.retryAfter, k, cfg.retry, a.random);
            AfterRetryable(s, a, cfg, k, failed).0 ==
            if delay >= s.calls[a.c].deadline - a.wall then Leave(s, a.c, kept, DeadlinePassed)
            else Move(s, a.c, kept, Sleeping(k, a.wall + delay))
  {
  }

  /** After a fault a call asks again only when the fault is worth it, nothing has been emitted and an
      attempt is left; it sleeps only when it is admitted and the delay ends before the deadline. */
  predicate MayRetry(s: System, a: Action, cfg: Config)
    requires a.Break? && a.c in s.calls && s.calls[a.c].pc.Calling?
    requires Consistent(s.shared.fields, cfg.breaker) && IsPolicy(cfg.breaker)
  {
    var call := s.calls[a.c];
    var after := RecordFailure(s.shared.fields, a.now, cfg.breaker);
    a.fault.Retryable? && (call.kind.Stream? ==> !call.pc.emitted) && call.pc.attempt + 1 < cfg.retry.maxAttempts &&
    (after.state.Closed? || (after.state.Open? && a.later - after.openedAt.value >= cfg.breaker.recoverySeconds)) &&
    RetryDelay(a.retryAfter, call.pc.attempt, cfg.retry, a.random) < call.deadline - a.wall
  }

  /** Main result on retries: a broken call sleeps for another attempt exactly under that condition, for
      exactly the computed delay, with the failure recorded and admission asked for; any other broken
      call leaves. */
  lemma RetriesIff(s: System, a: Action, t: System, cfg: Config)
    requires Inv(s, cfg) && IsConfig(cfg) && Steps(s, a, t, cfg) && a.Break?
    ensures t.calls[a.c].pc.Exited? <==> !MayRetry(s, a, cfg)
    ensures MayRetry(s, a, cfg) ==>
              var call := s.calls[a.c];
              var delay := RetryDelay(a.retryAfter, call.pc.attempt, cfg.retry, a.random);
              var (asked, admitted) := Admit(Fail(s.shared, a.now, cfg.breaker), a.c, a.later, cfg.breaker);
              t.calls[a.c].pc == Sleeping(call.pc.attempt, a.wall + delay) && admitted &&
              t.shared == if call.kind.Stream? then Abort(asked) else asked
  {
    OperationsKeepConsistency(s.shared.fields, a.now, cfg.breaker);
    AskedWhenFailed(s.shared.fields, a.now, a.later, cfg.breaker);
  }

  lemma AskedWhenFailed(b: Fields, now: real, later: real, p: Policy)
    requires Consistent(b, p) && IsPolicy(p)
    ensures var after := RecordFailure(b, now, p);
            Consistent(after, p) && !after.state.HalfOpen? &&
            (BeforeCall(after, later, p).1 <==>
             after.state.Closed? || (after.state.Open? && later - after.openedAt.value >= p.recoverySeconds))
  {
  }

  lemma RetryableKeeps(s: System, a: Action, cfg: Config, failed: Shared)
    requires Inv(s, cfg) && IsConfig(cfg) && a.Break? && a.c in s.calls && s.calls[a.c].pc.Calling?
    requires SharedInv(failed, cfg.breaker) && failed.owner == None && failed.clock <= a.later
    ensures Inv(AfterRetryable(s, a, cfg, s.calls[a.c].pc.attempt, failed).0, cfg)
  {
    var k := s.calls[a.c].pc.attempt;
    if k + 1 >= cfg.retry.maxAttempts {
      LeaveKeeps(s, a.c, failed, Exhausted, cfg);
      assert AfterRetryable(s, a, cfg, k, failed).0 == Leave(s, a.c, failed, Exhausted);
    } else {
      AskedAgain(failed, a.c, a.later, cfg.breaker);
      var (asked, admitted) := Admit(failed, a.c, a.later, cfg.breaker);
      if !admitted {
        LeaveKeeps(s, a.c, asked, Rejected, cfg);
        assert AfterRetryable(s, a, cfg, k, failed).0 == Leave(s, a.c, asked, Rejected);
      } else {
        WaitKeeps(s, a, cfg, asked);
        AfterReadmission(s, a, cfg, failed);
      }
    }
  }

  lemma KeptIsSound(asked: Shared, kind: Kind, c: nat, p: Policy)
    requires SharedInv(asked, p) && IsPolicy(p)
    requires asked.owner == None || (asked.owner == Some(c) && asked.fields.state.HalfOpen?)
    ensures var kept := if kind.Stream? then Abort(asked) else asked;
            SharedInv(kept, p) && (kept.owner == None || (kept.owner == Some(c) && kind.Complete?))
  {
  }

  /** Re-admitted: the call leaves at its deadline or goes to sleep. */
  lemma WaitKeeps(s: System, a: Action, cfg: Config, asked: Shared)
    requires Inv(s, cfg) && IsConfig(cfg) && a.Break? && a.c in s.calls && s.calls[a.c].pc.Calling?
    requires s.calls[a.c].pc.attempt + 1 < cfg.retry.maxAttempts
    requires SharedInv(asked, cfg.breaker)
    requires asked.owner == None || (asked.owner == Some(a.c) && asked.fields.state.HalfOpen?)
    ensures var k := s.calls[a.c].pc.attempt;
            var kept := if s.calls[a.c].kind.Stream? then Abort(asked) else asked;
            var delay := RetryDelay(a.retryAfter, k, cfg.retry, a.random);
            Inv(Leave(s, a.c, kept, DeadlinePassed), cfg) &&
            (delay < s.calls[a.c].deadline - a.wall ==> Inv(Move(s, a.c, kept, Sleeping(k, a.wall + delay)), cfg))
  {
    var k := s.calls[a.c].pc.attempt;
    var kept := if s.calls[a.c].kind.Stream? then Abort(asked) else asked;
    KeptIsSound(asked, s.calls[a.c].kind, a.c, cfg.breaker);
    var delay := RetryDelay(a.retryAfter, k, cfg.retry, a.random);
    LeaveKeeps(s, a.c, kept, DeadlinePassed, cfg);
    if delay < s.calls[a.c].deadline - a.wall {
      MoveKeeps(s, a.c, kept, Sleeping(k, a.wall + delay), cfg);
    }
  }

  lemma BreakKeeps(s: System, a: Action, cfg: Config)
    requires Inv(s, cfg) && IsConfig(cfg) && a.Break? && Apply(s, a, cfg).Some?
    ensures Inv(Apply(s, a, cfg).value, cfg)
  {
    RecordsKeep(s.shared, a.now, cfg.breaker);
    var call := s.calls[a.c];
    var failed := Fail(s.shared, a.now, cfg.breaker);
    if (call.kind.Complete? && !a.fault.Retryable?) || a.fault.InnerCircuitOpen? {
      LeaveKeeps(s, a.c, s.shared, Faulted(a.fault), cfg);
    } else if call.kind.Stream? && (call.pc.emitted || !a.fault.Retryable?) {
      LeaveKeeps(s, a.c, failed, Faulted(a.fault), cfg);
    } else {
      RetryableKeeps(s, a, cfg, failed);
    }
  }

  lemma WakeKeeps(s: System, a: Action, cfg: Config)
    requires Inv(s, cfg) && IsConfig(cfg) && a.Wake? && Apply(s, a, cfg).Some?
    ensures Inv(Apply(s, a, cfg).value, cfg)
  {
    var call := s.calls[a.c];
    if call.kind.Complete? {
      if call.deadline <= a.wall {
        LeaveKeeps(s, a.c, s.shared, DeadlinePassed, cfg);
      } else {
        MoveKeeps(s, a.c, s.shared, Calling(call.pc.after + 1, false), cfg);
      }
    } else {
      AdmitKeeps(s.shared, a.c, a.now, cfg.breaker);
      var (asked, admitted) := Admit(s.shared, a.c, a.now, cfg.breaker);
      if !admitted {
        LeaveKeeps(s, a.c, asked, Rejected, cfg);
      } else {
        MoveKeeps(s, a.c, asked, Calling(call.pc.after + 1, false), cfg);
      }
    }
  }

  lemma OtherStepsKeep(s: System, a: Action, cfg: Config)
    requires Inv(s, cfg) && IsConfig(cfg) && Apply(s, a, cfg).Some?
    requires a.GiveUp? || a.Emit? || a.Respond? || a.Cancel? || a.SleepTimeout?
    ensures Inv(Apply(s, a, cfg).value, cfg)
  {
    RecordsKeep(s.shared, s.shared.clock, cfg.breaker);
    var call := s.calls[a.c];
    match a {
      case GiveUp(c) => HoldersUpdate(s.calls, c, Exited(GaveUp));
      case Emit(c) => MoveKeeps(s, c, s.shared, Calling(call.pc.attempt, true), cfg);
      case Respond(c) => LeaveKeeps(s, c, Succeed(s.shared), Succeeded, cfg);
      case Cancel(c) =>
        LeaveKeeps(s, c, if call.pc.Calling? && call.kind.Stream? then Abort(s.shared) else s.shared, Cancelled, cfg);
      case SleepTimeout(c) => LeaveKeeps(s, c, s.shared, DeadlinePassed, cfg);
    }
  }

  lemma StepKeeps(s: System, a: Action, cfg: Config)
    requires Inv(s, cfg) && IsConfig(cfg) && Apply(s, a, cfg).Some?
    ensures Inv(Apply(s, a, cfg).value, cfg)
  {
    match a {
      case Begin(_, _, _) => BeginKeeps(s, a, cfg);
      case Break(_, _, _, _, _, _, _) => BreakKeeps(s, a, cfg);
      case Wake(_, _, _) => WakeKeeps(s, a, cfg);
      case _ => OtherStepsKeep(s, a, cfg);
    }
  }

  ghost predicate Steps(s: System, a: Action, t: System, cfg: Config) {
    Consistent(s.shared.fields, cfg.breaker) && IsPolicy(cfg.breaker) && Apply(s, a, cfg) == Some(t)
  }

  lemma StepsKeep(s: System, a: Action, t: System, cfg: Config)
    requires Inv(s, cfg) && IsConfig(cfg) && Steps(s, a, t, cfg)
    ensures Inv(t, cfg)
  {
    StepKeeps(s, a, cfg);
  }

  ghost predicate StepAt(run: seq<System>, actions: seq<Action>, cfg: Config, i: nat)
    requires |run| == |actions| + 1 && 0 < i < |run|
  {
    Steps(run[i - 1], actions[i - 1], run[i], cfg)
  }

  /** `run` is an interleaving of steps, from a start. */
  ghost predicate IsRun(run: seq<System>, actions: seq<Action>, cfg: Config) {
    |run| == |actions| + 1 && IsStart(run[0], cfg) &&
    forall i :: 0 < i < |run| ==> StepAt(run, actions, cfg, i)
  }

  /** Main result: permits are conserved, attempts are bounded, no sleep reaches the deadline, the
      breaker stays consistent and nothing is admitted too early, in every interleaving. */
  lemma {:induction false} RunsKeepInvariant(run: seq<System>, actions: seq<Action>, cfg: Config, i: nat)
    requires IsRun(run, actions, cfg) && IsConfig(cfg) && i < |run|
    ensures Inv(run[i], cfg)
  {
    if i == 0 {
      StartSatisfies(run[0], cfg);
    } else {
      RunsKeepInvariant(run, actions, cfg, i - 1);
      assert StepAt(run, actions, cfg, i);
      StepsKeep(run[i - 1], actions[i - 1], run[i], cfg);
    }
  }

  /** In every reachable state permits are conserved, no call is past its last attempt, and no call
      sleeps to or beyond its deadline. */
  lemma CallsStayInBounds(run: seq<System>, actions: seq<Action>, cfg: Config, i: nat, c: nat)
    requires IsRun(run, actions, cfg) && IsConfig(cfg) && i < |run|
    ensures run[i].free + |Holders(run[i].calls)| == cfg.maxConcurrency
    ensures c in run[i].calls && run[i].calls[c].pc.Calling? ==> run[i].calls[c].pc.attempt < cfg.retry.maxAttempts
    ensures c in run[i].calls && run[i].calls[c].pc.Sleeping? ==> run[i].calls[c].pc.wakeAt < run[i].calls[c].deadline
  {
    RunsKeepInvariant(run, actions, cfg, i);
    if c in run[i].calls {
      assert CallInv(run[i].calls[c], cfg);
    }
  }

  // ---- What the breaker counts ----

  /** In every reachable state the breaker has counted exactly the failures recorded since the last
      success or trip. */
  lemma FailuresAreCounted(run: seq<System>, actions: seq<Action>, cfg: Config, i: nat)
    requires IsRun(run, actions, cfg) && IsConfig(cfg) && i < |run|
    ensures run[i].shared.fields.failureCount == FailuresInARow(run[i].shared.log) < cfg.breaker.failureThreshold
  {
    RunsKeepInvariant(run, actions, cfg, i);
  }

  /** The faults that are recorded as failures. */
  predicate IsRecorded(kind: Kind, fault: Fault) {
    if kind.Complete? then fault.Retryable? else !fault.InnerCircuitOpen?
  }

  /** A recorded failure is logged, and trips the breaker exactly when it is half open or the failures
      in a row reach the threshold. */
  lemma TripsIff(s: System, a: Action, t: System, cfg: Config)
    requires Inv(s, cfg) && IsConfig(cfg) && Steps(s, a, t, cfg) && a.Break? && IsRecorded(s.calls[a.c].kind, a.fault)
    ensures s.shared.log + [Failed(a.now)] <= t.shared.log
    ensures Tripped(a.now) in t.shared.log[|s.shared.log| + 1..] <==>
            s.shared.fields.state.HalfOpen? || FailuresInARow(s.shared.log) + 1 >= cfg.breaker.failureThreshold
  {
    RecordsKeep(s.shared, a.now, cfg.breaker);
    var failed := Fail(s.shared, a.now, cfg.breaker);
    LogAfterFault(s, a, t, cfg);
    TripStandsNext(s.shared.log, a.now, Trips(s.shared.fields, cfg.breaker), []);
    TripStandsNext(s.shared.log, a.now, Trips(s.shared.fields, cfg.breaker), [Admitted(a.c, a.later)]);
    assert failed.log + [] == failed.log;
  }

  lemma TripStandsNext(log: seq<Event>, now: real, trips: bool, rest: seq<Event>)
    requires rest == [] || (|rest| == 1 && rest[0].Admitted?)
    ensures var after := LogOfFailure(log, now, trips) + rest;
            log + [Failed(now)] <= after && (Tripped(now) in after[|log| + 1..] <==> trips)
  {
    var after := LogOfFailure(log, now, trips) + rest;
    assert after[|log| + 1..] == (if trips then [Tripped(now)] else []) + rest;
  }

  lemma LogAfterFault(s: System, a: Action, t: System, cfg: Config)
    requires Inv(s, cfg) && IsConfig(cfg) && Steps(s, a, t, cfg) && a.Break? && IsRecorded(s.calls[a.c].kind, a.fault)
    ensures var failed := Fail(s.shared, a.now, cfg.breaker);
            t.shared.log == failed.log || t.shared.log == failed.log + [Admitted(a.c, a.later)]
  {
    OperationsKeepConsistency(s.shared.fields, a.now, cfg.breaker);
  }

  /** A success leaves the breaker closed with nothing counted; no other step logs a success, and no
      step but a recorded fault logs a failure or a trip. */
  lemma SuccessClears(s: System, a: Action, t: System, cfg: Config)
    requires Inv(s, cfg) && IsConfig(cfg) && Steps(s, a, t, cfg)
    requires a.Break? ==> !IsRecorded(s.calls[a.c].kind, a.fault)
    ensures if a.Respond?
            then t.shared.log == s.shared.log + [Recovered] && t.shared.fields == Fields(Closed, 0, None, false)
            else t.shared.log == s.shared.log || exists now :: t.shared.log == s.shared.log + [Admitted(a.c, now)]
  {
    if (a.Begin? || a.Wake?) && t.shared.log != s.shared.log {
      assert t.shared.log == s.shared.log + [Admitted(a.c, a.now)];
    }
  }

  /** A call begins with its first attempt, goes on to the next one only from its sleep, and never comes
      back once it has left. */
  lemma AttemptsAdvance(s: System, a: Action, t: System, cfg: Config, c: nat)
    requires Inv(s, cfg) && IsConfig(cfg) && Steps(s, a, t, cfg) && c in s.calls
    ensures c in t.calls && (t.calls[c].pc == s.calls[c].pc || a.c == c)
    ensures match s.calls[c].pc
            case Waiting => t.calls[c].pc in {Waiting, Calling(0, false)} || t.calls[c].pc.Exited?
            case Calling(k, emitted) =>
              t.calls[c].pc in {Calling(k, emitted), Calling(k, true)} || t.calls[c].pc.Exited? ||
              (t.calls[c].pc.Sleeping? && t.calls[c].pc.after == k)
            case Sleeping(k, _) => t.calls[c].pc in {s.calls[c].pc, Calling(k + 1, false)} || t.calls[c].pc.Exited?
            case Exited(_) => t.calls[c].pc == s.calls[c].pc
  {
    if a.Break? {
      RetriesIff(s, a, t, cfg);
    }
  }

  // ---- Admissions in time ----

  /** An admission that follows a trip with no success in between comes at least the recovery time
      after it. */
  lemma NoEarlyAdmission(run: seq<System>, actions: seq<Action>, cfg: Config, n: nat, i: nat, j: nat)
    requires IsRun(run, actions, cfg) && IsConfig(cfg) && n < |run|
    requires i < j < |run[n].shared.log| && run[n].shared.log[i].Tripped? && run[n].shared.log[j].Admitted?
    requires NoRecovery(run[n].shared.log, i, j)
    ensures run[n].shared.log[j].time >= run[n].shared.log[i].at + cfg.breaker.recoverySeconds
  {
    RunsKeepInvariant(run, actions, cfg, n);
  }

  // ---- Who may keep a lease ----

  /** A stream that has left holds no lease, unless the wrapped client itself reported an open
      circuit while the lease was held. */
  lemma StreamsReturnLeases(run: seq<System>, actions: seq<Action>, cfg: Config, i: nat, c: nat)
    requires IsRun(run, actions, cfg) && IsConfig(cfg) && i < |run|
    requires c in run[i].calls && run[i].calls[c].kind.Stream? && run[i].calls[c].pc.Exited?
    requires run[i].calls[c].pc.reason != Faulted(InnerCircuitOpen)
    ensures run[i].shared.owner != Some(c)
  {
    RunsKeepInvariant(run, actions, cfg, i);
  }

  /** A request for admission would make the caller the probe. */
  predicate TakesLease(b: Fields, now: real, p: Policy)
    requires b.state.Open? ==> b.openedAt.Some?
  {
    (b.state.HalfOpen? && !b.halfOpenInFlight) || (b.state.Open? && now - b.openedAt.value >= p.recoverySeconds)
  }

  /** The steps that make a call leave with the lease in its hands, seen before the step: a request
      whose deadline has passed on admission, a cancelled `complete`, a sleeper that runs out of time, an
      error that is not recorded, and a recorded one after which the call is admitted as the probe
      only to find its delay too long. */
  predicate LeavesHolding(s: System, a: Action, cfg: Config)
    requires a.c in s.calls && Consistent(s.shared.fields, cfg.breaker) && IsPolicy(cfg.breaker)
    requires a.Break? ==> s.calls[a.c].pc.Calling?
  {
    var call, mine := s.calls[a.c], s.shared.owner == Some(a.c);
    match a
    case Begin(_, now, wall) => call.kind.Complete? && call.deadline <= wall &&
      TakesLease(s.shared.fields, now, cfg.breaker)
    case Cancel(_) => mine && call.kind.Complete?
    case SleepTimeout(_) => mine
    case Wake(_, _, wall) => mine && call.kind.Complete? && call.deadline <= wall
    case Break(_, fault, now, later, wall, retryAfter, random) =>
      if call.kind.Stream? then mine && fault.InnerCircuitOpen?
      else if !fault.Retryable? then mine
      else call.pc.attempt + 1 < cfg.retry.maxAttempts &&
           TakesLease(RecordFailure(s.shared.fields, now, cfg.breaker), later, cfg.breaker) &&
           RetryDelay(retryAfter, call.pc.attempt, cfg.retry, random) >= call.deadline - wall
    case _ => false
  }

  /** Main result on leases: a step makes a call leave with the lease exactly under that condition on
      the state before it. */
  lemma LeaseStaysBehindIff(s: System, a: Action, t: System, cfg: Config)
    requires Inv(s, cfg) && IsConfig(cfg) && Steps(s, a, t, cfg)
    ensures t.calls[a.c].pc.Exited? && t.shared.owner == Some(a.c) <==> LeavesHolding(s, a, cfg)
  {
    if a.Break? {
      if s.calls[a.c].kind.Complete? && a.fault.Retryable? {
        LeaseAfterRetryable(s, a, t, cfg);
      } else {
        LeaseAfterOtherFault(s, a, t, cfg);
      }
    } else if a.Begin? {
      AdmitTakesLease(s.shared, a.c, a.now, cfg.breaker);
    } else if a.Wake? && s.calls[a.c].kind.Stream? {
      AdmitTakesLease(s.shared, a.c, a.now, cfg.breaker);
    }
  }

  /** Who holds the lease after a request for admission. */
  lemma AdmitTakesLease(sh: Shared, c: nat, now: real, p: Policy)
    requires SharedInv(sh, p) && IsPolicy(p) && now >= sh.clock
    ensures var (after, admitted) := Admit(sh, c, now, p);
            (admitted && after.fields.state.HalfOpen? <==> TakesLease(sh.fields, now, p)) &&
            after.owner == if TakesLease(sh.fields, now, p) then Some(c) else sh.owner
  {
  }

  lemma LeaseAfterRetryable(s: System, a: Action, t: System, cfg: Config)
    requires Inv(s, cfg) && IsConfig(cfg) && Steps(s, a, t, cfg)
    requires a.Break? && s.calls[a.c].kind.Complete? && a.fault.Retryable?
    ensures t.calls[a.c].pc.Exited? && t.shared.owner == Some(a.c) <==> LeavesHolding(s, a, cfg)
  {
    RecordsKeep(s.shared, a.now, cfg.breaker);
    AdmitTakesLease(Fail(s.shared, a.now, cfg.breaker), a.c, a.later, cfg.breaker);
  }

  lemma LeaseAfterOtherFault(s: System, a: Action, t: System, cfg: Config)
    requires Inv(s, cfg) && IsConfig(cfg) && Steps(s, a, t, cfg)
    requires a.Break? && (s.calls[a.c].kind.Stream? || !a.fault.Retryable?)
    ensures t.calls[a.c].pc.Exited? && t.shared.owner == Some(a.c) <==> LeavesHolding(s, a, cfg)
  {
    RecordsKeep(s.shared, a.now, cfg.breaker);
    AdmitTakesLease(Fail(s.shared, a.now, cfg.breaker), a.c, a.later, cfg.breaker);
  }

  /** A probe whose failure is recorded is admitted as the probe again exactly when the recovery time
      has passed between the two readings of the clock. */
  lemma ProbeRetakesIff(b: Fields, now: real, later: real, p: Policy)
    requires Consistent(b, p) && IsPolicy(p) && b.state.HalfOpen?
    ensures TakesLease(RecordFailure(b, now, p), later, p) <==> later - now >= p.recoverySeconds
  {
  }

  // ---- A lease nobody will return ----

  /** The lease is held and no admitted call is left to report back. */
  ghost predicate Wedged(s: System) {
    s.shared.fields.state.HalfOpen? && s.shared.fields.halfOpenInFlight &&
    forall c :: c in s.calls ==> !IsAdmitted(s.calls[c])
  }

  /** Once wedged, always wedged: no step of any call is ever admitted again. */
  lemma WedgedForGood(s: System, a: Action, t: System, cfg: Config)
    requires Wedged(s) && Steps(s, a, t, cfg)
    ensures Wedged(t) && t.shared.log == s.shared.log
  {
  }

  lemma {:induction false} WedgedRun(run: seq<System>, actions: seq<Action>, cfg: Config, i: nat, j: nat)
    requires IsRun(run, actions, cfg) && i <= j < |run| && Wedged(run[i])
    ensures Wedged(run[j]) && run[j].shared.log == run[i].shared.log
    decreases j
  {
    if i < j {
      WedgedRun(run, actions, cfg, i, j - 1);
      assert StepAt(run, actions, cfg, j);
      WedgedForGood(run[j - 1], actions[j - 1], run[j], cfg);
    }
  }

  /** `run` is a list of steps, from any state. */
  ghost predicate IsPath(run: seq<System>, actions: seq<Action>, cfg: Config) {
    |run| == |actions| + 1 && forall i :: 0 < i < |run| ==> StepAt(run, actions, cfg, i)
  }

  /** The converse: as long as an admitted call is left, the breaker can still close. */
  lemma OtherwiseItCanClose(s: System, cfg: Config) returns (run: seq<System>, actions: seq<Action>)
    requires Inv(s, cfg) && IsConfig(cfg) && s.shared.fields.state.HalfOpen? && s.shared.fields.halfOpenInFlight &&
             !Wedged(s)
    ensures IsPath(run, actions, cfg) && run[0] == s && run[|run| - 1].shared.fields.state.Closed?
  {
    var c :| c in s.calls && IsAdmitted(s.calls[c]);
    if s.calls[c].pc.Calling? {
      actions := [Respond(c)];
      run := [s, Apply(s, Respond(c), cfg).value];
    } else {
      var wake := Wake(c, s.shared.clock, s.calls[c].deadline - 1.0);
      var t := Apply(s, wake, cfg).value;
      actions := [wake, Respond(c)];
      run := [s, t, Apply(t, Respond(c), cfg).value];
    }
  }

  const EXAMPLE := Config(4, RetryPolicy(2, 1.0, 1.0, 1.0), Policy(1, 10.0))

  /** It can happen: a probe made by `complete` meets an error that is not retried. */
  lemma WedgeIsReachable() returns (run: seq<System>, actions: seq<Action>)
    ensures IsConfig(EXAMPLE) && IsRun(run, actions, EXAMPLE) && Wedged(run[|run| - 1])
  {
    var a, b := Call(Complete, 100.0, Waiting), Call(Complete, 100.0, Waiting);
    actions := [
      Begin(0, 0.0, 0.0),
      Break(0, Retryable, 1.0, 1.0, 1.0, None, 0.0),
      Begin(1, 20.0, 20.0),
      Break(1, NotRetryable, 21.0, 21.0, 21.0, None, 0.0)];
    var s0 := System(4, map[0 := a, 1 := b], Shared(INITIAL, None, 0.0, []));
    var s1 := Apply(s0, actions[0], EXAMPLE).value;
    var s2 := Apply(s1, actions[1], EXAMPLE).value;
    var s3 := Apply(s2, actions[2], EXAMPLE).value;
    var s4 := Apply(s3, actions[3], EXAMPLE).value;
    run := [s0, s1, s2, s3, s4];
  }

  /** A stream can leave a lease behind as well: its wrapped client reports an open circuit. */
  lemma StreamCanKeepLease() returns (run: seq<System>, actions: seq<Action>)
    ensures IsConfig(EXAMPLE) && IsRun(run, actions, EXAMPLE)
    ensures var last := run[|run| - 1];
            1 in last.calls && last.calls[1].kind.Stream? && last.calls[1].pc.Exited? && last.shared.owner == Some(1) &&
            Wedged(last)
  {
    var call := Call(Stream, 100.0, Waiting);
    actions := [
      Begin(0, 0.0, 0.0),
      Break(0, NotRetryable, 1.0, 1.0, 1.0, None, 0.0),
      Begin(1, 20.0, 20.0),
      Break(1, InnerCircuitOpen, 21.0, 21.0, 21.0, None, 0.0)];
    var s0 := System(4, map[0 := call, 1 := call], Shared(INITIAL, None, 0.0, []));
    var s1 := Apply(s0, actions[0], EXAMPLE).value;
    var s2 := Apply(s1, actions[1], EXAMPLE).value;
    var s3 := Apply(s2, actions[2], EXAMPLE).value;
    var s4 := Apply(s3, actions[3], EXAMPLE).value;
    run := [s0, s1, s2, s3, s4];
  }
}
