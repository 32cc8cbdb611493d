// Bounded admission to the speech runtime: a counter of outstanding reservations and a semaphore
// of model slots, shared by transcription requests, their workers (which outlive a caller that
// times out) and streams. A step is one stretch of code between two suspension points.

module AdmissionControl {
  import opened Outcomes

  datatype Limits = Limits(concurrency: nat, queue: nat)

  datatype Worker = Queued | Running | Done(ok: bool)

  /** Where one reservation stands. */
  datatype Phase =
    | Waiting(worker: Worker)     // a caller waits for the worker
    | Abandoned(worker: Worker)   // the caller timed out, was cancelled or failed; the worker goes on
    | Releasing                   // a task that will release the reservation has been created
    | Opening(hasSlot: bool)      // a stream is being opened
    | Streaming                   // a stream is open
    | Closing                     // its `closed` flag is set, the inner session is being closed
    | Released

  datatype Runtime = Runtime(outstanding: int, freeSlots: nat, phases: map<nat, Phase>, releases: map<nat, nat>)

  datatype Action =
    | Request(id: nat)            // transcribe: reserve and start a worker
    | OpenStream(id: nat)         // open_stream: reserve
    | TakeSlot(id: nat)           // the worker, or the opening stream, acquires the model slot
    | WorkerEnds(id: nat, ok: bool)
    | CallerReturns(id: nat)      // the caller sees the finished worker
    | CallerLeaves(id: nat)       // timeout or cancellation of the caller
    | RunRelease(id: nat)         // the release task runs
    | OpenFails(id: nat)
    | OpenSucceeds(id: nat)
    | BeginClose(id: nat)         // finish or close: the first one sets the flag
    | CloseAgain(id: nat)         // a later one returns at once
    | EndClose(id: nat)           // the inner session is closed, or failed to close

  function Start(limits: Limits): Runtime { Runtime(0, limits.concurrency, map[], map[]) }

  predicate IsSession(p: Phase) { p.Opening? || p.Streaming? || p.Closing? }

  predicate HoldsSlot(p: Phase) {
    match p
    case Waiting(w) => w.Running?
    case Abandoned(w) => w.Running?
    case Opening(hasSlot) => hasSlot
    case Streaming => true
    case Closing => true
    case _ => false
  }

  /** A reservation is refused when the counter has reached the capacity. */
  function Reserve(s: Runtime, id: nat, p: Phase, limits: Limits): Option<Runtime> {
    if id in s.phases || s.outstanding >= limits.concurrency + limits.queue then None
    else Some(Runtime(s.outstanding + 1, s.freeSlots, s.phases[id := p], s.releases[id := 0]))
  }

  function Set(s: Runtime, id: nat, p: Phase): Runtime { s.(phases := s.phases[id := p]) }

  /** The critical section that gives a reservation back. */
  function Release(s: Runtime, id: nat): Runtime
    requires id in s.releases
  {
    Runtime(s.outstanding - 1, s.freeSlots, s.phases[id := Released], s.releases[id := s.releases[id] + 1])
  }

  function FreeSlot(s: Runtime): Runtime { s.(freeSlots := s.freeSlots + 1) }

  function Apply(s: Runtime, a: Action, limits: Limits): Option<Runtime>
    requires s.phases.Keys == s.releases.Keys
  {
    if a.Request? then Reserve(s, a.id, Waiting(Queued), limits)
    else if a.OpenStream? then Reserve(s, a.id, Opening(false), limits)
    else if a.id !in s.phases then None
    else
      var p := s.phases[a.id];
      match a
      case TakeSlot(id) =>
        if s.freeSlots == 0 then None
        else
          var taken := s.(freeSlots := s.freeSlots - 1);
          if p == Waiting(Queued) then Some(Set(taken, id, Waiting(Running)))
          else if p == Abandoned(Queued) then Some(Set(taken, id, Abandoned(Running)))
          else if p == Opening(false) then Some(Set(taken, id, Opening(true)))
          else None
      case WorkerEnds(id, ok) =>
        if p == Waiting(Running) then Some(FreeSlot(Set(s, id, Waiting(Done(ok)))))
        else if p == Abandoned(Running) then Some(FreeSlot(Set(s, id, Releasing)))
        else None
      case CallerReturns(id) =>
        if p == Waiting(Done(true)) then Some(Release(s, id))
        else if p == Waiting(Done(false)) then Some(Set(s, id, Releasing))
        else None
      case CallerLeaves(id) =>
        if !p.Waiting? then None
        else if p.worker.Done? then Some(Set(s, id, Releasing))
        else Some(Set(s, id, Abandoned(p.worker)))
      case RunRelease(id) =>
        if p.Releasing? then Some(Release(s, id)) else None
      case OpenFails(id) =>
        if !p.Opening? then None
        else if p.hasSlot then Some(Release(FreeSlot(s), id)) else Some(Release(s, id))
      case OpenSucceeds(id) =>
        if p == Opening(true) then Some(Set(s, id, Streaming)) else None
      case BeginClose(id) =>
        if p.Streaming? then Some(Set(s, id, Closing)) else None
      case CloseAgain(id) =>
        if p.Closing? || p.Released? then Some(s) else None
      case EndClose(id) =>
        if p.Closing? then Some(Release(FreeSlot(s), id)) else None
  }

  // ---- The life of a reservation ----

  /** A reservation is given back by exactly these steps of its own: the caller sees a worker that
      succeeded, the release task runs, the stream fails to open, or its closing ends. */
  lemma ReleasesIff(s: Runtime, a: Action, t: Runtime, limits: Limits, id: nat)
    requires s.phases.Keys == s.releases.Keys && Apply(s, a, limits) == Some(t)
    requires id in s.phases && !s.phases[id].Released?
    ensures t.outstanding - s.outstanding ==
            (if a.Request? || a.OpenStream? then 1 else 0) - (if GivesBack(s, a) then 1 else 0)
    ensures t.phases[id].Released? <==> a.id == id && GivesBack(s, a)
  {
  }

  predicate GivesBack(s: Runtime, a: Action) {
    (a.CallerReturns? && a.id in s.phases && s.phases[a.id] == Waiting(Done(true))) ||
    a.RunRelease? || a.OpenFails? || a.EndClose?
  }

  /** A worker outlives its caller: leaving neither stops it nor gives anything back. */
  lemma WorkerOutlivesCaller(s: Runtime, t: Runtime, limits: Limits, id: nat)
    requires s.phases.Keys == s.releases.Keys && Apply(s, CallerLeaves(id), limits) == Some(t)
    ensures t.outstanding == s.outstanding && t.freeSlots == s.freeSlots && t.releases == s.releases
    ensures s.phases[id].Waiting? &&
            t.phases[id] == if s.phases[id].worker.Done? then Releasing else Abandoned(s.phases[id].worker)
  {
  }

  /** A worker that ends frees its slot and tells the caller that still waits how it ended. With the
      caller gone its reservation is given back by a task of its own. */
  lemma EndedWorkerIsSeen(s: Runtime, t: Runtime, limits: Limits, id: nat, ok: bool)
    requires s.phases.Keys == s.releases.Keys && Apply(s, WorkerEnds(id, ok), limits) == Some(t)
    ensures t.freeSlots == s.freeSlots + 1 && t.outstanding == s.outstanding
    ensures s.phases[id] == Waiting(Running) || s.phases[id] == Abandoned(Running)
    ensures t.phases[id] == if s.phases[id].Waiting? then Waiting(Done(ok)) else Releasing
    ensures s.phases[id].Waiting? ==> Apply(t, CallerReturns(id), limits).Some?
  {
  }

  // ---- Conservation ----

  function Unreleased(phases: map<nat, Phase>): set<nat> {
    set id | id in phases && !phases[id].Released?
  }

  function SlotHolders(phases: map<nat, Phase>): set<nat> {
    set id | id in phases && HoldsSlot(phases[id])
  }

  ghost predicate Inv(s: Runtime, limits: Limits) {
    s.phases.Keys == s.releases.Keys &&
    s.outstanding == |Unreleased(s.phases)| <= limits.concurrency + limits.queue &&
    s.freeSlots + |SlotHolders(s.phases)| == limits.concurrency &&
    forall id :: id in s.phases ==> s.releases[id] == if s.phases[id].Released? then 1 else 0
  }

  lemma MembershipChange(before: set<nat>, after: set<nat>, id: nat)
    requires forall k :: k != id ==> (k in before <==> k in after)
    ensures |after| == |before| - (if id in before then 1 else 0) + (if id in after then 1 else 0)
  {
    assert before - {id} == after - {id};
    assert before == if id in before then (before - {id}) + {id} else before - {id};
    assert after == if id in after then (after - {id}) + {id} else after - {id};
  }

  ghost predicate Moves(s: Runtime, t: Runtime, id: nat, p: Phase) {
    t.phases == s.phases[id := p] && t.releases.Keys == t.phases.Keys &&
    (forall k :: k in s.releases && k != id ==> k in t.releases && t.releases[k] == s.releases[k]) &&
    t.releases[id] == if p.Released? then 1 else 0
  }

  /** The two counters follow the phase of one reservation. */
  ghost predicate Follows(s: Runtime, t: Runtime, id: nat, p: Phase) {
    t.outstanding == s.outstanding - (if id in s.phases && !s.phases[id].Released? then 1 else 0) +
    (if p.Released? then 0 else 1) &&
    t.freeSlots == s.freeSlots + (if id in s.phases && HoldsSlot(s.phases[id]) then 1 else 0) -
    (if HoldsSlot(p) then 1 else 0)
  }

  lemma MoveKeeps(s: Runtime, t: Runtime, id: nat, p: Phase, limits: Limits)
    requires Inv(s, limits) && Moves(s, t, id, p) && Follows(s, t, id, p)
    requires t.outstanding <= limits.concurrency + limits.queue
    ensures Inv(t, limits)
  {
    MembershipChange(Unreleased(s.phases), Unreleased(t.phases), id);
    MembershipChange(SlotHolders(s.phases), SlotHolders(t.phases), id);
    forall k | k in t.phases ensures t.releases[k] == if t.phases[k].Released? then 1 else 0 {
      assert k == id || k in s.releases;
    }
  }

  ghost predicate CountedOnce(s: Runtime) {
    s.phases.Keys == s.releases.Keys &&
    forall id :: id in s.phases ==> s.releases[id] == if s.phases[id].Released? then 1 else 0
  }

  ghost predicate StepIsMove(s: Runtime, a: Action, limits: Limits)
    requires s.phases.Keys == s.releases.Keys && Apply(s, a, limits).Some?
  {
    var t := Apply(s, a, limits).value;
    a.id in t.phases && Moves(s, t, a.id, t.phases[a.id]) && Follows(s, t, a.id, t.phases[a.id]) &&
    (t.outstanding <= s.outstanding || t.outstanding <= limits.concurrency + limits.queue)
  }

  predicate IsWorkerStep(a: Action) { a.TakeSlot? || a.WorkerEnds? }

  predicate IsCallerStep(a: Action) { a.CallerReturns? || a.CallerLeaves? || a.RunRelease? }

  lemma WorkerStepMoves(s: Runtime, a: Action, limits: Limits)
    requires IsWorkerStep(a) && CountedOnce(s) && Apply(s, a, limits).Some?
    ensures StepIsMove(s, a, limits)
  {
  }

  lemma CallerStepMoves(s: Runtime, a: Action, limits: Limits)
    requires IsCallerStep(a) && CountedOnce(s) && Apply(s, a, limits).Some?
    ensures StepIsMove(s, a, limits)
  {
  }

  lemma ReservationMoves(s: Runtime, a: Action, limits: Limits)
    requires a.Request? || a.OpenStream?
    requires CountedOnce(s) && Apply(s, a, limits).Some?
    ensures StepIsMove(s, a, limits)
  {
  }

  lemma SessionStepMoves(s: Runtime, a: Action, limits: Limits)
    requires a.OpenFails? || a.OpenSucceeds? || a.BeginClose? || a.EndClose?
    requires CountedOnce(s) && Apply(s, a, limits).Some?
    ensures StepIsMove(s, a, limits)
  {
  }

  lemma StepKeeps(s: Runtime, a: Action, limits: Limits)
    requires Inv(s, limits) && Apply(s, a, limits).Some?
    ensures Inv(Apply(s, a, limits).value, limits)
  {
    if !a.CloseAgain? {
      if IsWorkerStep(a) {
        WorkerStepMoves(s, a, limits);
      } else if IsCallerStep(a) {
        CallerStepMoves(s, a, limits);
      } else if a.Request? || a.OpenStream? {
        ReservationMoves(s, a, limits);
      } else {
        SessionStepMoves(s, a, limits);
      }
      var t := Apply(s, a, limits).value;
      MoveKeeps(s, t, a.id, t.phases[a.id], limits);
    }
  }

  ghost predicate Steps(s: Runtime, a: Action, t: Runtime, limits: Limits) {
    s.phases.Keys == s.releases.Keys && Apply(s, a, limits) == Some(t)
  }

  ghost predicate StepAt(run: seq<Runtime>, actions: seq<Action>, limits: Limits, i: nat)
    requires |run| == |actions| + 1 && 0 < i < |run|
  {
    Steps(run[i - 1], actions[i - 1], run[i], limits)
  }

  ghost predicate IsRun(run: seq<Runtime>, actions: seq<Action>, limits: Limits) {
    |run| == |actions| + 1 && run[0] == Start(limits) &&
    forall i :: 0 < i < |run| ==> StepAt(run, actions, limits, i)
  }

  lemma {:induction false} RunsKeepInvariant(run: seq<Runtime>, actions: seq<Action>, limits: Limits, i: nat)
    requires IsRun(run, actions, limits) && i < |run|
    ensures Inv(run[i], limits)
  {
    if i == 0 {
      assert Unreleased(run[0].phases) == {} && SlotHolders(run[0].phases) == {};
    } else {
      RunsKeepInvariant(run, actions, limits, i - 1);
      assert StepAt(run, actions, limits, i);
      StepKeeps(run[i - 1], actions[i - 1], limits);
    }
  }

  // ---- What the counter counts ----

  /** Workers that have not ended, whether or not anyone still waits for them. */
  function LiveWorkers(phases: map<nat, Phase>): set<nat> {
    set id | id in phases && ((phases[id].Waiting? && !phases[id].worker.Done?) ||
                              (phases[id].Abandoned? && !phases[id].worker.Done?))
  }

  /** Streams being opened, open, or being closed. */
  function Streams(phases: map<nat, Phase>): set<nat> {
    set id | id in phases && IsSession(phases[id])
  }

  /** Workers that have ended while the release is still to come. */
  function PendingReleases(phases: map<nat, Phase>): set<nat> {
    set id | id in phases && (phases[id].Releasing? || (phases[id].Waiting? && phases[id].worker.Done?))
  }

  ghost predicate NoAbandonedDone(phases: map<nat, Phase>) {
    forall id :: id in phases && phases[id].Abandoned? ==> !phases[id].worker.Done?
  }

  lemma {:induction false} AbandonedWorkersAreLive(run: seq<Runtime>, actions: seq<Action>, limits: Limits, i: nat)
    requires IsRun(run, actions, limits) && i < |run|
    ensures NoAbandonedDone(run[i].phases)
  {
    if i == 0 {
    } else {
      AbandonedWorkersAreLive(run, actions, limits, i - 1);
      assert StepAt(run, actions, limits, i);
    }
  }

  /** Main result: in every reachable state the counter is within the capacity and is the number of
      live workers, of streams and of releases still to come; no more slots are held than exist;
      and every reservation has been released once or not yet. */
  lemma OutstandingIsExact(run: seq<Runtime>, actions: seq<Action>, limits: Limits, i: nat)
    requires IsRun(run, actions, limits) && i < |run|
    ensures var s := run[i];
            0 <= s.outstanding <= limits.concurrency + limits.queue &&
            s.outstanding == |LiveWorkers(s.phases)| + |Streams(s.phases)| + |PendingReleases(s.phases)| &&
            |SlotHolders(s.phases)| <= limits.concurrency &&
            s.phases.Keys == s.releases.Keys &&
            forall id :: id in s.phases ==> s.releases[id] <= 1 && (s.releases[id] == 1 <==> s.phases[id].Released?)
  {
    RunsKeepInvariant(run, actions, limits, i);
    AbandonedWorkersAreLive(run, actions, limits, i);
    var p := run[i].phases;
    assert Unreleased(p) == LiveWorkers(p) + Streams(p) + PendingReleases(p);
    assert LiveWorkers(p) !! Streams(p) && (LiveWorkers(p) + Streams(p)) !! PendingReleases(p);
  }

  // ---- Every reservation comes back ----

  function WorkerRank(w: Worker): nat {
    match w
    case Queued => 3
    case Running => 2
    case Done(_) => 1
  }

  function Rank(p: Phase): nat {
    match p
    case Waiting(w) => 4 + WorkerRank(w)
    case Abandoned(w) => 1 + WorkerRank(w)
    case Releasing => 1
    case Opening(hasSlot) => if hasSlot then 3 else 4
    case Streaming => 2
    case Closing => 1
    case Released => 0
  }

  /** Every step that is not a new reservation or a repeated close brings its own reservation closer
      to release, and leaves the others where they are. */
  lemma StepsMoveForward(s: Runtime, a: Action, t: Runtime, limits: Limits)
    requires Steps(s, a, t, limits) && !a.Request? && !a.OpenStream? && !a.CloseAgain?
    ensures a.id in s.phases && Rank(t.phases[a.id]) < Rank(s.phases[a.id])
    ensures t.phases.Keys == s.phases.Keys
    ensures forall id :: id in s.phases && id != a.id ==> t.phases[id] == s.phases[id]
  {
  }

  /** As long as a reservation is out, such a step is possible: nothing blocks for ever. */
  lemma SomethingCanMove(s: Runtime, limits: Limits, id: nat) returns (a: Action)
    requires Inv(s, limits) && limits.concurrency > 0 && NoAbandonedDone(s.phases)
    requires id in s.phases && !s.phases[id].Released?
    ensures !a.Request? && !a.OpenStream? && !a.CloseAgain? && Apply(s, a, limits).Some?
  {
    var who := id;
    if s.freeSlots == 0 {
      assert |SlotHolders(s.phases)| > 0;
      who :| who in SlotHolders(s.phases);
    }
    a := match s.phases[who]
         case Waiting(w) => if w.Queued? then TakeSlot(who) else if w.Running? then WorkerEnds(who, true)
           else CallerReturns(who)
         case Abandoned(w) => if w.Queued? then TakeSlot(who) else WorkerEnds(who, true)
         case Releasing => RunRelease(who)
         case Opening(hasSlot) => OpenFails(who)
         case Streaming => BeginClose(who)
         case Closing => EndClose(who)
         case Released => RunRelease(who);
  }

  // ---- The runtime object, whose fields the steps update ----

  class LazySpeechRuntime {
    const limits: Limits
    var outstanding: int
    var freeSlots: nat
    ghost var phases: map<nat, Phase>
    ghost var releases: map<nat, nat>

    ghost function View(): Runtime
      reads this
    {
      Runtime(outstanding, freeSlots, phases, releases)
    }

    ghost predicate Valid()
      reads this
    {
      Inv(View(), limits)
    }

    constructor (limits: Limits)
      ensures Valid() && View() == Start(limits) && this.limits == limits
    {
      this.limits := limits;
      outstanding, freeSlots, phases, releases := 0, limits.concurrency, map[], map[];
      new;
      assert Unreleased(phases) == {} && SlotHolders(phases) == {};
    }

    /** `_reserve_slot`, on behalf of a request or a stream. */
    method ReserveSlot(ghost id: nat, ghost stream: bool) returns (ok: bool)
      requires Valid() && id !in phases
      modifies this
      ensures Valid() && ok == (old(outstanding) < limits.concurrency + limits.queue)
      ensures var a := if stream then OpenStream(id) else Request(id);
              if ok then Apply(old(View()), a, limits) == Some(View()) else View() == old(View())
    {
      var capacity := limits.concurrency + limits.queue;
      if outstanding >= capacity {
        return false;
      }
      ghost var a := if stream then OpenStream(id) else Request(id);
      StepKeeps(View(), a, limits);
      outstanding := outstanding + 1;
      phases := phases[id := if stream then Opening(false) else Waiting(Queued)];
      releases := releases[id := 0];
      ok := true;
    }

    /** `_release_slot` at the end of a reservation; `slot` tells whether the model slot goes back
        with it. The action is the one that reaches this point. */
    method ReleaseSlot(slot: bool, ghost a: Action)
      requires Valid() && Apply(View(), a, limits).Some?
      requires a.id in phases &&
               Apply(View(), a, limits).value == Release(if slot then FreeSlot(View()) else View(), a.id)
      modifies this
      ensures Valid() && Apply(old(View()), a, limits) == Some(View())
      ensures outstanding == old(outstanding) - 1 && freeSlots == old(freeSlots) + if slot then 1 else 0
    {
      StepKeeps(View(), a, limits);
      if slot {
        freeSlots := freeSlots + 1;
      }
      outstanding := outstanding - 1;
      phases, releases := phases[a.id := Released], releases[a.id := releases[a.id] + 1];
    }
  }
}
