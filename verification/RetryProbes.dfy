// Probes of the half-open breaker: how many calls can hold one at a time, and what it takes for a
// second one to start while the first is still out.

module RetryProbes {
  import opened CircuitBreaker
  import opened Common
  import opened Outcomes
  import opened RetryClient

  // ---- What makes a call the probe ----

  /** The steps that admit the acting call as the probe, seen before the step. A stream that is
      admitted again after a fault gives the lease back at once and is not one. */
  predicate BecomesProbe(s: System, a: Action, cfg: Config)
    requires a.c in s.calls && Consistent(s.shared.fields, cfg.breaker) && IsPolicy(cfg.breaker)
    requires a.Break? ==> s.calls[a.c].pc.Calling?
  {
    var call := s.calls[a.c];
    match a
    case Begin(_, now, wall) =>
      !(call.kind.Complete? && call.deadline <= wall) && TakesLease(s.shared.fields, now, cfg.breaker)
    case Wake(_, now, _) => call.kind.Stream? && TakesLease(s.shared.fields, now, cfg.breaker)
    case Break(_, fault, now, later, wall, retryAfter, random) =>
      call.kind.Complete? && fault.Retryable? && call.pc.attempt + 1 < cfg.retry.maxAttempts &&
      TakesLease(RecordFailure(s.shared.fields, now, cfg.breaker), later, cfg.breaker) &&
      RetryDelay(retryAfter, call.pc.attempt, cfg.retry, random) < call.deadline - wall
    case _ => false
  }

  /** The steps of a call `a.c` that take the lease from another call, seen before the step: it
      responds, it is a stream and is cancelled, or a failure of it is recorded. */
  predicate TakesAway(s: System, a: Action)
    requires a.c in s.calls
  {
    a.Respond? ||
    (a.Cancel? && s.calls[a.c].pc.Calling? && s.calls[a.c].kind.Stream?) ||
    (a.Break? && if s.calls[a.c].kind.Complete? then a.fault.Retryable? else !a.fault.InnerCircuitOpen?)
  }

  /** The lease leaves its owner by a step of another call exactly under that condition. */
  lemma TakesAwayIff(s: System, a: Action, t: System, cfg: Config, o: nat)
    requires Inv(s, cfg) && IsConfig(cfg) && Steps(s, a, t, cfg)
    requires s.shared.owner == Some(o) && a.c != o
    ensures t.shared.owner != Some(o) <==> TakesAway(s, a)
  {
  }

  /** A call that becomes the probe is admitted and owns the lease. */
  lemma ProbeOwns(s: System, a: Action, t: System, cfg: Config)
    requires Inv(s, cfg) && IsConfig(cfg) && Steps(s, a, t, cfg) && BecomesProbe(s, a, cfg)
    ensures a.c in t.calls && IsAdmitted(t.calls[a.c]) && t.shared.owner == Some(a.c)
  {
    if a.Break? {
      RecordsKeep(s.shared, a.now, cfg.breaker);
      AdmitTakesLease(Fail(s.shared, a.now, cfg.breaker), a.c, a.later, cfg.breaker);
    } else {
      AdmitTakesLease(s.shared, a.c, a.now, cfg.breaker);
    }
  }

  /** And an admitted owner of the lease has just become the probe or was the owner already. */
  lemma OwnerIsProbe(s: System, a: Action, t: System, cfg: Config)
    requires Inv(s, cfg) && IsConfig(cfg) && Steps(s, a, t, cfg)
    requires t.shared.owner == Some(a.c) && IsAdmitted(t.calls[a.c])
    ensures BecomesProbe(s, a, cfg) || (s.shared.owner == Some(a.c) && IsAdmitted(s.calls[a.c]) && !a.Break?)
  {
    if a.Break? {
      OwnerAfterFault(s, a, t, cfg);
    } else if a.Begin? || a.Wake? {
      OwnerAfterRequest(s, a, t, cfg);
    }
  }

  lemma OwnerAfterFault(s: System, a: Action, t: System, cfg: Config)
    requires Inv(s, cfg) && IsConfig(cfg) && Steps(s, a, t, cfg) && a.Break?
    requires t.shared.owner == Some(a.c) && IsAdmitted(t.calls[a.c])
    ensures BecomesProbe(s, a, cfg)
  {
    RetriesIff(s, a, t, cfg);
    RecordsKeep(s.shared, a.now, cfg.breaker);
    AdmitTakesLease(Fail(s.shared, a.now, cfg.breaker), a.c, a.later, cfg.breaker);
  }

  lemma OwnerAfterRequest(s: System, a: Action, t: System, cfg: Config)
    requires Inv(s, cfg) && IsConfig(cfg) && Steps(s, a, t, cfg) && (a.Begin? || a.Wake?)
    requires t.shared.owner == Some(a.c) && IsAdmitted(t.calls[a.c])
    ensures BecomesProbe(s, a, cfg) || (s.shared.owner == Some(a.c) && IsAdmitted(s.calls[a.c]))
  {
    AdmitTakesLease(s.shared, a.c, a.now, cfg.breaker);
  }

  // ---- The probes of a run ----

  /** A probe stays one until it leaves, gives the lease back or has a fault of its own. */
  predicate StaysProbe(c: nat, a: Action, t: System) {
    c in t.calls && IsAdmitted(t.calls[c]) && !(a.Break? && a.c == c)
  }

  ghost predicate BecomesProbeAt(run: seq<System>, actions: seq<Action>, cfg: Config, i: nat)
    requires IsRun(run, actions, cfg) && 0 < i < |run|
  {
    assert StepAt(run, actions, cfg, i);
    BecomesProbe(run[i - 1], actions[i - 1], cfg)
  }

  function Staying(probes: set<nat>, a: Action, t: System): set<nat> {
    set c | c in probes && StaysProbe(c, a, t)
  }

  /** The calls that took the lease on admission and have not reported back since, whoever holds the
      lease by now. */
  ghost function Probes(run: seq<System>, actions: seq<Action>, cfg: Config, i: nat): set<nat>
    requires IsRun(run, actions, cfg) && i < |run|
  {
    if i == 0 then {}
    else
      Staying(Probes(run, actions, cfg, i - 1), actions[i - 1], run[i]) +
      if BecomesProbeAt(run, actions, cfg, i) then {actions[i - 1].c} else {}
  }

  lemma StepInRun(run: seq<System>, actions: seq<Action>, cfg: Config, i: nat)
    requires IsRun(run, actions, cfg) && IsConfig(cfg) && 0 < i < |run|
    ensures Inv(run[i - 1], cfg) && Steps(run[i - 1], actions[i - 1], run[i], cfg)
  {
    RunsKeepInvariant(run, actions, cfg, i - 1);
    assert StepAt(run, actions, cfg, i);
  }

  lemma {:induction false} ProbesAreAdmitted(run: seq<System>, actions: seq<Action>, cfg: Config, i: nat, c: nat)
    requires IsRun(run, actions, cfg) && IsConfig(cfg) && i < |run| && c in Probes(run, actions, cfg, i)
    ensures c in run[i].calls && IsAdmitted(run[i].calls[c])
  {
    StepInRun(run, actions, cfg, i);
    if BecomesProbeAt(run, actions, cfg, i) {
      ProbeOwns(run[i - 1], actions[i - 1], run[i], cfg);
    }
  }

  /** An admitted owner of the lease is a probe. */
  lemma {:induction false} OwnerIsAmongProbes(run: seq<System>, actions: seq<Action>, cfg: Config, i: nat, c: nat)
    requires IsRun(run, actions, cfg) && IsConfig(cfg) && i < |run|
    requires c in run[i].calls && IsAdmitted(run[i].calls[c]) && run[i].shared.owner == Some(c)
    ensures c in Probes(run, actions, cfg, i)
  {
    if i == 0 {
      assert false;
    } else {
      StepInRun(run, actions, cfg, i);
      var s, a, t := run[i - 1], actions[i - 1], run[i];
      if a.c == c {
        OwnerIsProbe(s, a, t, cfg);
      } else {
        OthersUnchanged(s, a, t, cfg, c);
        OwnerStays(s, a, t, cfg, c);
      }
      if !(a.c == c && BecomesProbe(s, a, cfg)) {
        OwnerIsAmongProbes(run, actions, cfg, i - 1, c);
      }
    }
  }

  /** A step gives the lease to nobody but the acting call. */
  lemma OwnerStays(s: System, a: Action, t: System, cfg: Config, c: nat)
    requires Inv(s, cfg) && IsConfig(cfg) && Steps(s, a, t, cfg) && t.shared.owner == Some(c) && a.c != c
    ensures s.shared.owner == Some(c)
  {
  }

  // ---- How a second probe comes about ----

  /** At step `i` another call takes the lease away from the probe `o`. */
  ghost predicate RobbedAt(run: seq<System>, actions: seq<Action>, cfg: Config, i: nat, o: nat)
    requires IsRun(run, actions, cfg) && 0 < i < |run|
  {
    var s, a := run[i - 1], actions[i - 1];
    assert StepAt(run, actions, cfg, i);
    s.shared.owner == Some(o) && a.c != o && TakesAway(s, a)
  }

  /** `o` is a probe from state `i` to state `j`. */
  ghost predicate OutFrom(run: seq<System>, actions: seq<Action>, cfg: Config, i: nat, j: nat, o: nat)
    requires IsRun(run, actions, cfg) && j < |run|
  {
    forall k :: i <= k <= j ==> o in Probes(run, actions, cfg, k)
  }

  /** The probe `o` loses its lease to another call at step `i` and is still out when another call
      becomes the probe at step `j`. */
  ghost predicate SecondProbe(run: seq<System>, actions: seq<Action>, cfg: Config, i: nat, j: nat, o: nat)
    requires IsRun(run, actions, cfg)
  {
    0 < i <= j < |run| && RobbedAt(run, actions, cfg, i, o) && OutFrom(run, actions, cfg, i - 1, j - 1, o) &&
    BecomesProbeAt(run, actions, cfg, j) && actions[j - 1].c != o
  }

  ghost predicate AtMostOne(probes: set<nat>) {
    forall c, d :: c in probes && d in probes ==> c == d
  }

  /** A probe loses its lease to another call, as long as it stays a probe. */
  lemma LostToAnother(s: System, a: Action, t: System, cfg: Config, o: nat)
    requires Inv(s, cfg) && IsConfig(cfg) && Steps(s, a, t, cfg) && s.shared.owner == Some(o)
    requires IsAdmitted(s.calls[o]) && StaysProbe(o, a, t) && t.shared.owner != Some(o)
    ensures a.c != o && TakesAway(s, a)
  {
    if a.c != o {
      TakesAwayIff(s, a, t, cfg, o);
    }
  }

  lemma LostAt(run: seq<System>, actions: seq<Action>, cfg: Config, n: nat, o: nat)
    requires IsRun(run, actions, cfg) && IsConfig(cfg) && 0 < n < |run| && o in Probes(run, actions, cfg, n - 1)
    requires run[n - 1].shared.owner == Some(o) && run[n].shared.owner != Some(o) &&
             StaysProbe(o, actions[n - 1], run[n])
    ensures RobbedAt(run, actions, cfg, n, o)
  {
    StepInRun(run, actions, cfg, n);
    ProbesAreAdmitted(run, actions, cfg, n - 1, o);
    LostToAnother(run[n - 1], actions[n - 1], run[n], cfg, o);
  }

  /** A probe without the lease was a probe before. */
  lemma WasProbe(run: seq<System>, actions: seq<Action>, cfg: Config, n: nat, o: nat)
    requires IsRun(run, actions, cfg) && IsConfig(cfg) && 0 < n < |run|
    requires o in Probes(run, actions, cfg, n) && run[n].shared.owner != Some(o)
    ensures o in Probes(run, actions, cfg, n - 1) && StaysProbe(o, actions[n - 1], run[n])
  {
    if BecomesProbeAt(run, actions, cfg, n) {
      StepInRun(run, actions, cfg, n);
      ProbeOwns(run[n - 1], actions[n - 1], run[n], cfg);
    }
  }

  lemma OutLonger(run: seq<System>, actions: seq<Action>, cfg: Config, i: nat, n: nat, o: nat)
    requires IsRun(run, actions, cfg) && 0 < n < |run|
    requires OutFrom(run, actions, cfg, i, n - 1, o) && o in Probes(run, actions, cfg, n)
    ensures OutFrom(run, actions, cfg, i, n, o)
  {
  }

  /** A probe that no longer owns the lease was robbed of it. */
  lemma {:induction false} Robbery(run: seq<System>, actions: seq<Action>, cfg: Config, n: nat, o: nat) returns (i: nat)
    requires IsRun(run, actions, cfg) && IsConfig(cfg) && n < |run|
    requires o in Probes(run, actions, cfg, n) && run[n].shared.owner != Some(o)
    ensures 0 < i <= n && RobbedAt(run, actions, cfg, i, o) && OutFrom(run, actions, cfg, i - 1, n, o)
  {
    WasProbe(run, actions, cfg, n, o);
    if run[n - 1].shared.owner == Some(o) {
      LostAt(run, actions, cfg, n, o);
      i := n;
    } else {
      i := Robbery(run, actions, cfg, n - 1, o);
      OutLonger(run, actions, cfg, i - 1, n, o);
    }
  }

  /** When a further call becomes the probe, one that is out has been robbed. */
  lemma RobbedByNow(run: seq<System>, actions: seq<Action>, cfg: Config, n: nat, o: nat) returns (i: nat)
    requires IsRun(run, actions, cfg) && IsConfig(cfg) && 0 < n < |run| && o in Probes(run, actions, cfg, n - 1)
    requires BecomesProbeAt(run, actions, cfg, n) && actions[n - 1].c != o
    ensures SecondProbe(run, actions, cfg, i, n, o)
  {
    if run[n - 1].shared.owner == Some(o) {
      StepInRun(run, actions, cfg, n);
      ProbeOwns(run[n - 1], actions[n - 1], run[n], cfg);
      TakesAwayIff(run[n - 1], actions[n - 1], run[n], cfg, o);
      assert RobbedAt(run, actions, cfg, n, o);
      i := n;
    } else {
      i := Robbery(run, actions, cfg, n - 1, o);
    }
  }

  lemma BothOut(run: seq<System>, actions: seq<Action>, cfg: Config, n: nat, o: nat)
    requires IsRun(run, actions, cfg) && IsConfig(cfg) && 0 < n < |run| && o in Probes(run, actions, cfg, n - 1)
    requires BecomesProbeAt(run, actions, cfg, n) && actions[n - 1].c != o
    ensures !AtMostOne(Probes(run, actions, cfg, n))
  {
    StepInRun(run, actions, cfg, n);
    ProbesAreAdmitted(run, actions, cfg, n - 1, o);
    OthersUnchanged(run[n - 1], actions[n - 1], run[n], cfg, o);
    assert o in Probes(run, actions, cfg, n) && actions[n - 1].c in Probes(run, actions, cfg, n);
  }

  /** The step to the first state with two probes makes a call the probe while another is out. */
  lemma SecondJoins(run: seq<System>, actions: seq<Action>, cfg: Config, n: nat) returns (o: nat)
    requires IsRun(run, actions, cfg) && 0 < n < |run|
    requires AtMostOne(Probes(run, actions, cfg, n - 1)) && !AtMostOne(Probes(run, actions, cfg, n))
    ensures BecomesProbeAt(run, actions, cfg, n) && o in Probes(run, actions, cfg, n - 1) && actions[n - 1].c != o
  {
    var before, after := Probes(run, actions, cfg, n - 1), Probes(run, actions, cfg, n);
    var c, d :| c in after && d in after && c != d;
    o := if c == actions[n - 1].c then d else c;
  }

  lemma {:induction false} FirstSecondProbe(run: seq<System>, actions: seq<Action>, cfg: Config, n: nat)
    returns (i: nat, j: nat, o: nat)
    requires IsRun(run, actions, cfg) && IsConfig(cfg) && n < |run| && !AtMostOne(Probes(run, actions, cfg, n))
    ensures SecondProbe(run, actions, cfg, i, j, o)
  {
    if !AtMostOne(Probes(run, actions, cfg, n - 1)) {
      i, j, o := FirstSecondProbe(run, actions, cfg, n - 1);
    } else {
      j := n;
      o := SecondJoins(run, actions, cfg, n);
      i := RobbedByNow(run, actions, cfg, n, o);
    }
  }

  /** Main result on probes: a run has at most one probe at every moment exactly when no probe that
      another call has robbed of its lease is still out when a further call becomes the probe. */
  lemma OneProbeAtATimeIff(run: seq<System>, actions: seq<Action>, cfg: Config)
    requires IsRun(run, actions, cfg) && IsConfig(cfg)
    ensures (forall n: nat :: n < |run| ==> AtMostOne(Probes(run, actions, cfg, n))) <==>
            !exists i: nat, j: nat, o: nat :: SecondProbe(run, actions, cfg, i, j, o)
  {
    if i: nat, j: nat, o: nat :| SecondProbe(run, actions, cfg, i, j, o) {
      assert o in Probes(run, actions, cfg, j - 1);
      BothOut(run, actions, cfg, j, o);
    }
    if n: nat :| n < |run| && !AtMostOne(Probes(run, actions, cfg, n)) {
      var i, j, o := FirstSecondProbe(run, actions, cfg, n);
    }
  }

  lemma StillOut(run: seq<System>, actions: seq<Action>, cfg: Config, n: nat, o: nat)
    requires IsRun(run, actions, cfg) && 0 < n < |run| && o in Probes(run, actions, cfg, n - 1)
    requires StaysProbe(o, actions[n - 1], run[n])
    ensures o in Probes(run, actions, cfg, n)
  {
  }

  lemma CancelledOldStream() returns (run: seq<System>, actions: seq<Action>)
    ensures IsConfig(EXAMPLE) && IsRun(run, actions, EXAMPLE)
    ensures |run| == 7 && run[6].shared.fields.state.HalfOpen? && actions[3].c == 2 && actions[5].c == 3
    ensures BecomesProbeAt(run, actions, EXAMPLE, 4) && BecomesProbeAt(run, actions, EXAMPLE, 6)
    ensures StaysProbe(2, actions[4], run[5])
  {
    var call := Call(Stream, 100.0, Waiting);
    actions := [
      Begin(0, 0.0, 0.0),
      Begin(1, 0.0, 0.0),
      Break(1, NotRetryable, 1.0, 1.0, 1.0, None, 0.0),
      Begin(2, 20.0, 20.0),
      Cancel(0),
      Begin(3, 21.0, 21.0)];
    var s0 := System(4, map[0 := call, 1 := call, 2 := call, 3 := call], Shared(INITIAL, None, 0.0, []));
    var s1 := Apply(s0, actions[0], EXAMPLE).value;
    var s2 := Apply(s1, actions[1], EXAMPLE).value;
    var s3 := Apply(s2, actions[2], EXAMPLE).value;
    var s4 := Apply(s3, actions[3], EXAMPLE).value;
    var s5 := Apply(s4, actions[4], EXAMPLE).value;
    var s6 := Apply(s5, actions[5], EXAMPLE).value;
    run := [s0, s1, s2, s3, s4, s5, s6];
  }

  /** It does happen: a stream admitted before the trip and cancelled later gives back a
      lease that is not its own, and two probes run at once. */
  lemma TwoProbesAtOnce() returns (run: seq<System>, actions: seq<Action>)
    ensures IsConfig(EXAMPLE) && IsRun(run, actions, EXAMPLE)
    ensures run[|run| - 1].shared.fields.state.HalfOpen?
    ensures !AtMostOne(Probes(run, actions, EXAMPLE, |run| - 1))
  {
    run, actions := CancelledOldStream();
    assert 2 in Probes(run, actions, EXAMPLE, 4);
    StillOut(run, actions, EXAMPLE, 5, 2);
    BothOut(run, actions, EXAMPLE, 6, 2);
  }

  lemma NoProbeYet(run: seq<System>, actions: seq<Action>, cfg: Config, n: nat)
    requires IsRun(run, actions, cfg) && 0 < n < |run| && Probes(run, actions, cfg, n - 1) == {}
    ensures Probes(run, actions, cfg, n) == if BecomesProbeAt(run, actions, cfg, n) then {actions[n - 1].c} else {}
  {
  }

  /** An old call that is still in flight is no probe: here it is admitted in the half-open state
      without the lease, and there is one probe all the same. */
  lemma OldCallIsNoProbe() returns (run: seq<System>, actions: seq<Action>)
    ensures IsConfig(EXAMPLE) && IsRun(run, actions, EXAMPLE) && !Alone(run[|run| - 1])
    ensures forall n: nat :: n < |run| ==> AtMostOne(Probes(run, actions, EXAMPLE, n))
  {
    var call := Call(Stream, 100.0, Waiting);
    actions := [
      Begin(0, 0.0, 0.0),
      Begin(1, 0.0, 0.0),
      Break(1, NotRetryable, 1.0, 1.0, 1.0, None, 0.0),
      Begin(2, 20.0, 20.0)];
    var s0 := System(4, map[0 := call, 1 := call, 2 := call], Shared(INITIAL, None, 0.0, []));
    var s1 := Apply(s0, actions[0], EXAMPLE).value;
    var s2 := Apply(s1, actions[1], EXAMPLE).value;
    var s3 := Apply(s2, actions[2], EXAMPLE).value;
    var s4 := Apply(s3, actions[3], EXAMPLE).value;
    run := [s0, s1, s2, s3, s4];
    NoProbeYet(run, actions, EXAMPLE, 1);
    NoProbeYet(run, actions, EXAMPLE, 2);
    NoProbeYet(run, actions, EXAMPLE, 3);
    NoProbeYet(run, actions, EXAMPLE, 4);
    assert IsAdmitted(s4.calls[0]) && s4.shared.owner == Some(2);
  }

  // ---- Alone while half open ----

  /** While half open, only the holder of the lease is admitted. */
  ghost predicate Alone(s: System) {
    s.shared.fields.state.HalfOpen? ==>
      forall c :: c in s.calls && IsAdmitted(s.calls[c]) ==> s.shared.owner == Some(c)
  }

  /** The step does not enter the half-open state while another call is still admitted. */
  ghost predicate RecoversAlone(s: System, a: Action, t: System) {
    t.shared.fields.state.HalfOpen? && !s.shared.fields.state.HalfOpen? ==>
      forall c :: c in s.calls && c != a.c ==> !IsAdmitted(s.calls[c])
  }

  /** What a request for admission does to the probes, when nobody else is admitted or the state
      was half open with one probe at most. */
  lemma AloneAdmit(sh: Shared, c: nat, now: real, calls: map<nat, Call>, p: Policy)
    requires SharedInv(sh, p) && IsPolicy(p) && now >= sh.clock
    requires sh.fields.state.HalfOpen? ==> forall d :: d in calls && d != c && IsAdmitted(calls[d]) ==>
               sh.owner == Some(d)
    requires !sh.fields.state.HalfOpen? && Admit(sh, c, now, p).0.fields.state.HalfOpen? ==>
               forall d :: d in calls && d != c ==> !IsAdmitted(calls[d])
    ensures var (after, admitted) := Admit(sh, c, now, p);
            after.fields.state.HalfOpen? ==>
              (forall d :: d in calls && d != c && IsAdmitted(calls[d]) ==> after.owner == Some(d)) &&
              (admitted ==> after.owner == Some(c))
  {
    AdmitKeeps(sh, c, now, p);
  }

  lemma AloneBegin(s: System, a: Action, t: System, cfg: Config)
    requires Inv(s, cfg) && IsConfig(cfg) && Steps(s, a, t, cfg) && (a.Begin? || a.Wake?)
    requires Alone(s) && RecoversAlone(s, a, t)
    ensures Alone(t)
  {
    if a.Begin? || s.calls[a.c].kind.Stream? {
      AloneAdmit(s.shared, a.c, a.now, s.calls, cfg.breaker);
    }
  }

  /** A call that breaks while the breaker is or becomes half open is the only one admitted. */
  lemma AloneAtFault(s: System, a: Action, t: System, cfg: Config, d: nat)
    requires Steps(s, a, t, cfg) && a.Break? && Alone(s) && RecoversAlone(s, a, t)
    requires t.shared.fields.state.HalfOpen? && d in s.calls && d != a.c
    ensures !IsAdmitted(s.calls[d])
  {
    assert IsAdmitted(s.calls[a.c]);
  }

  lemma AloneBreak(s: System, a: Action, t: System, cfg: Config)
    requires Inv(s, cfg) && IsConfig(cfg) && Steps(s, a, t, cfg) && a.Break?
    requires Alone(s) && RecoversAlone(s, a, t)
    ensures Alone(t)
  {
    if t.shared.fields.state.HalfOpen? {
      forall d | d in s.calls && d != a.c
        ensures !IsAdmitted(t.calls[d])
      {
        AloneAtFault(s, a, t, cfg, d);
      }
      if IsAdmitted(t.calls[a.c]) {
        RetriedProbeOwns(s, a, t, cfg);
      }
    }
  }

  lemma RetriedProbeOwns(s: System, a: Action, t: System, cfg: Config)
    requires Inv(s, cfg) && IsConfig(cfg) && Steps(s, a, t, cfg) && a.Break?
    requires t.shared.fields.state.HalfOpen? && IsAdmitted(t.calls[a.c])
    ensures t.shared.owner == Some(a.c)
  {
    RetriedIsReadmitted(s, a, t, cfg);
    RecordsKeep(s.shared, a.now, cfg.breaker);
    AdmitKeeps(Fail(s.shared, a.now, cfg.breaker), a.c, a.later, cfg.breaker);
  }

  /** A call that is still admitted after a fault was admitted again after recording it. */
  lemma RetriedIsReadmitted(s: System, a: Action, t: System, cfg: Config)
    requires Steps(s, a, t, cfg) && a.Break? && IsAdmitted(t.calls[a.c])
    requires Consistent(Fail(s.shared, a.now, cfg.breaker).fields, cfg.breaker)
    ensures var (asked, admitted) := Admit(Fail(s.shared, a.now, cfg.breaker), a.c, a.later, cfg.breaker);
            admitted && t.shared == asked
  {
  }

  lemma AloneStep(s: System, a: Action, t: System, cfg: Config)
    requires Inv(s, cfg) && IsConfig(cfg) && Steps(s, a, t, cfg)
    requires Alone(s) && RecoversAlone(s, a, t)
    ensures Alone(t)
  {
    match a {
      case Begin(_, _, _) => AloneBegin(s, a, t, cfg);
      case Wake(_, _, _) => AloneBegin(s, a, t, cfg);
      case Break(_, _, _, _, _, _, _) => AloneBreak(s, a, t, cfg);
      case _ =>
    }
  }

  ghost predicate RecoversAloneAt(run: seq<System>, actions: seq<Action>, i: nat)
    requires |run| == |actions| + 1 && 0 < i < |run|
  {
    RecoversAlone(run[i - 1], actions[i - 1], run[i])
  }

  /** A step that enters the half-open state leaves the lease with the acting call or with nobody. */
  lemma EntersForItself(s: System, a: Action, t: System, cfg: Config)
    requires Inv(s, cfg) && IsConfig(cfg) && Steps(s, a, t, cfg)
    requires t.shared.fields.state.HalfOpen? && !s.shared.fields.state.HalfOpen?
    ensures t.shared.owner == None || t.shared.owner == Some(a.c)
  {
  }

  lemma OthersUnchanged(s: System, a: Action, t: System, cfg: Config, c: nat)
    requires Inv(s, cfg) && IsConfig(cfg) && Steps(s, a, t, cfg) && c in s.calls && c != a.c
    ensures c in t.calls && t.calls[c] == s.calls[c]
  {
  }

  /** An owner alone after a step means that the step did not enter half open in company. */
  lemma AloneNeedsIt(s: System, a: Action, t: System, cfg: Config)
    requires Inv(s, cfg) && IsConfig(cfg) && Steps(s, a, t, cfg) && Alone(t)
    ensures RecoversAlone(s, a, t)
  {
    if t.shared.fields.state.HalfOpen? && !s.shared.fields.state.HalfOpen? {
      EntersForItself(s, a, t, cfg);
      forall c | c in s.calls && c != a.c ensures !IsAdmitted(s.calls[c]) {
        OthersUnchanged(s, a, t, cfg, c);
      }
    }
  }

  lemma {:induction false} AloneUpTo(run: seq<System>, actions: seq<Action>, cfg: Config, i: nat)
    requires IsRun(run, actions, cfg) && IsConfig(cfg) && i < |run|
    requires forall k :: 0 < k < |run| ==> RecoversAloneAt(run, actions, k)
    ensures Alone(run[i])
  {
    if i == 0 {
      assert IsStart(run[0], cfg);
    } else {
      AloneUpTo(run, actions, cfg, i - 1);
      RunsKeepInvariant(run, actions, cfg, i - 1);
      assert StepAt(run, actions, cfg, i);
      assert RecoversAloneAt(run, actions, i);
      AloneStep(run[i - 1], actions[i - 1], run[i], cfg);
    }
  }

  /** Throughout a run the owner of the lease is the only admitted call in every half-open state,
      exactly when no step turns the breaker half open while another call is still admitted. */
  lemma AloneWhileHalfOpenIff(run: seq<System>, actions: seq<Action>, cfg: Config)
    requires IsRun(run, actions, cfg) && IsConfig(cfg)
    ensures (forall i :: 0 <= i < |run| ==> Alone(run[i])) <==>
              (forall k :: 0 < k < |run| ==> RecoversAloneAt(run, actions, k))
  {
    if forall k :: 0 < k < |run| ==> RecoversAloneAt(run, actions, k) {
      forall i | 0 <= i < |run| ensures Alone(run[i]) {
        AloneUpTo(run, actions, cfg, i);
      }
    }
    if forall i :: 0 <= i < |run| ==> Alone(run[i]) {
      forall k | 0 < k < |run| ensures RecoversAloneAt(run, actions, k) {
        RunsKeepInvariant(run, actions, cfg, k - 1);
        assert StepAt(run, actions, cfg, k);
        AloneNeedsIt(run[k - 1], actions[k - 1], run[k], cfg);
      }
    }
  }
}
