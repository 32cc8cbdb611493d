// Assignment of public roles to diarized speakers, from caller metadata first and from the role
// agent for the rest. Whatever is returned satisfies the validator of the resolution type and
// rests on evidence of the speaker's own segments.

module RoleResolving {
  import opened Common
  import opened Outcomes
  import opened Transcript

  datatype DiarizedSegment = DiarizedSegment(
    id: Uuid, speakerId: SpeakerId, speakerConfidence: Option<real>, start: real, end: real, text: string,
    words: seq<Word>)

  datatype Candidate = Candidate(speakerId: SpeakerId, evidence: seq<Uuid>)

  datatype RoleMapping = RoleMapping(speakerId: SpeakerId, role: SpeakerRole, confidence: real)

  datatype ResolvedRole = ResolvedRole(speakerId: SpeakerId, role: SpeakerRole, confidence: real, evidence: seq<Uuid>)

  datatype Decision = Decision(roles: seq<ResolvedRole>, provenance: Option<string>)

  datatype Error = RoleResolutionRequired | AgentOutputInvalid

  const REVIEW_THRESHOLD: real := 0.75

  // ---- Candidates ----

  /** Speakers in the order of their first segment. */
  function SpeakersOf(segments: seq<DiarizedSegment>): (r: seq<SpeakerId>)
    ensures forall who :: who in r <==> exists i :: 0 <= i < |segments| && segments[i].speakerId == who
    ensures Distinct(r)
  {
    if segments == [] then []
    else
      var earlier := SpeakersOf(segments[..|segments| - 1]);
      var who := segments[|segments| - 1].speakerId;
      assert segments == segments[..|segments| - 1] + [segments[|segments| - 1]];
      if who in earlier then earlier else earlier + [who]
  }

  function EvidenceOf(who: SpeakerId, segments: seq<DiarizedSegment>): seq<Uuid> {
    if segments == [] then []
    else
      var last := segments[|segments| - 1];
      EvidenceOf(who, segments[..|segments| - 1]) + if last.speakerId == who then [last.id] else []
  }

  function CandidatesOf(segments: seq<DiarizedSegment>): (r: seq<Candidate>)
    ensures |r| == |SpeakersOf(segments)|
    ensures forall i :: 0 <= i < |r| ==>
              r[i] ==
              Candidate(SpeakersOf(segments)[i], EvidenceOf(SpeakersOf(segments)[i], segments))
  {
    var speakers := SpeakersOf(segments);
    seq(|speakers|, i requires 0 <= i < |speakers| => Candidate(speakers[i], EvidenceOf(speakers[i], segments)))
  }

  ghost predicate GroupOf(grouped: map<SpeakerId, seq<Uuid>>, segments: seq<DiarizedSegment>, who: SpeakerId) {
    if who in grouped then grouped[who] == EvidenceOf(who, segments) && who in SpeakersOf(segments)
    else EvidenceOf(who, segments) == [] && who !in SpeakersOf(segments)
  }

  /** The dictionary of the grouping loop. */
  ghost predicate Groups(grouped: map<SpeakerId, seq<Uuid>>, segments: seq<DiarizedSegment>) {
    forall who :: GroupOf(grouped, segments, who)
  }

  /** What one more segment changes. */
  lemma OneMoreSegment(segments: seq<DiarizedSegment>, s: DiarizedSegment, who: SpeakerId)
    ensures EvidenceOf(who, segments + [s]) == EvidenceOf(who, segments) + if who == s.speakerId then [s.id] else []
    ensures SpeakersOf(segments + [s]) == SpeakersOf(segments) +
            if s.speakerId in SpeakersOf(segments) then [] else [s.speakerId]
  {
    assert (segments + [s])[..|segments|] == segments;
  }

  lemma GroupsStep(grouped: map<SpeakerId, seq<Uuid>>, segments: seq<DiarizedSegment>, s: DiarizedSegment)
    requires Groups(grouped, segments)
    ensures var known := if s.speakerId in grouped then grouped[s.speakerId] else [];
            Groups(grouped[s.speakerId := known + [s.id]], segments + [s])
    ensures SpeakersOf(segments + [s]) == if s.speakerId in grouped then SpeakersOf(segments)
            else SpeakersOf(segments) + [s.speakerId]
  {
    assert GroupOf(grouped, segments, s.speakerId);
    OneMoreSegment(segments, s, s.speakerId);
    var known := if s.speakerId in grouped then grouped[s.speakerId] else [];
    var after, longer := grouped[s.speakerId := known + [s.id]], segments + [s];
    forall who ensures GroupOf(after, longer, who) {
      assert GroupOf(grouped, segments, who);
      OneMoreSegment(segments, s, who);
    }
  }

  /** The grouping loop; the dictionary keeps the order in which keys are first set. */
  method GroupSegments(segments: seq<DiarizedSegment>)
      returns (order: seq<SpeakerId>, grouped: map<SpeakerId, seq<Uuid>>)
    ensures order == SpeakersOf(segments) && Groups(grouped, segments)
  {
    order, grouped := [], map[];
    ghost var done: seq<DiarizedSegment> := [];
    for i := 0 to |segments|
      invariant done == segments[..i]
      invariant order == SpeakersOf(done) && Groups(grouped, done)
    {
      var s := segments[i];
      GroupsStep(grouped, done, s);
      done := done + [s];
      if s.speakerId in grouped {
        grouped := grouped[s.speakerId := grouped[s.speakerId] + [s.id]];
      } else {
        order := order + [s.speakerId];
        grouped := grouped[s.speakerId := [] + [s.id]];
      }
    }
    assert segments[..|segments|] == segments;
  }

  method Candidates(segments: seq<DiarizedSegment>) returns (candidates: seq<Candidate>)
    ensures candidates == CandidatesOf(segments)
  {
    var order, grouped := GroupSegments(segments);
    candidates := CandidateList(segments, order, grouped);
  }

  method CandidateList(segments: seq<DiarizedSegment>, order: seq<SpeakerId>, grouped: map<SpeakerId, seq<Uuid>>)
    returns (candidates: seq<Candidate>)
    requires order == SpeakersOf(segments) && Groups(grouped, segments)
    ensures candidates == CandidatesOf(segments)
  {
    candidates := [];
    for i := 0 to |order|
      invariant candidates == CandidatesOf(segments)[..i]
    {
      assert order[i] in order && GroupOf(grouped, segments, order[i]);
      candidates := candidates + [Candidate(order[i], grouped[order[i]])];
    }
  }

  ghost predicate DistinctIds(segments: seq<DiarizedSegment>) {
    forall i, j :: 0 <= i < j < |segments| ==> segments[i].id != segments[j].id
  }

  lemma {:induction false} EvidenceMeaning(who: SpeakerId, segments: seq<DiarizedSegment>, id: Uuid)
    ensures id in EvidenceOf(who, segments) <==>
              exists i :: 0 <= i < |segments| && segments[i].id == id && segments[i].speakerId == who
  {
    if segments == [] {
    } else {
      var init := segments[..|segments| - 1];
      EvidenceMeaning(who, init, id);
      assert forall i :: 0 <= i < |init| ==> init[i] == segments[i];
    }
  }

  lemma {:induction false} EvidenceIsDistinct(who: SpeakerId, segments: seq<DiarizedSegment>)
    requires DistinctIds(segments)
    ensures Distinct(EvidenceOf(who, segments))
  {
    if segments == [] {
    } else {
      var init := segments[..|segments| - 1];
      EvidenceIsDistinct(who, init);
      EvidenceMeaning(who, init, segments[|segments| - 1].id);
    }
  }

  // ---- Resolution, as a function of its inputs ----

  function MappingFor(who: SpeakerId, mappings: seq<RoleMapping>): Option<RoleMapping> {
    if mappings == [] then None
    else if mappings[|mappings| - 1].speakerId == who then Some(mappings[|mappings| - 1])
    else MappingFor(who, mappings[..|mappings| - 1])
  }

  function Unresolved(candidates: seq<Candidate>, mappings: seq<RoleMapping>): (r: seq<Candidate>)
    ensures forall c :: c in r <==> c in candidates && MappingFor(c.speakerId, mappings).None?
  {
    if candidates == [] then []
    else
      var last := candidates[|candidates| - 1];
      assert candidates == candidates[..|candidates| - 1] + [last];
      Unresolved(candidates[..|candidates| - 1], mappings) +
        if MappingFor(last.speakerId, mappings).None? then [last] else []
  }

  predicate EvidenceGrounded(c: Candidate, r: ResolvedRole) {
    r.evidence != [] && forall e :: e in r.evidence ==> e in c.evidence
  }

  /** The checks on the agent's answer. */
  predicate AgentValid(unresolved: seq<Candidate>, d: Decision) {
    (forall i, j :: 0 <= i < j < |d.roles| ==> d.roles[i].speakerId != d.roles[j].speakerId) &&
    (forall r <- d.roles :: exists c :: c in unresolved && c.speakerId == r.speakerId) &&
    (d.roles != [] ==> d.provenance.Some?) &&
    (forall r <- d.roles :: forall c <- unresolved :: c.speakerId == r.speakerId ==> EvidenceGrounded(c, r))
  }

  function RoleIn(who: SpeakerId, roles: seq<ResolvedRole>): (r: Option<ResolvedRole>)
    ensures r.Some? ==> r.value in roles && r.value.speakerId == who
    ensures r.None? ==> forall x <- roles :: x.speakerId != who
  {
    if roles == [] then None
    else if roles[0].speakerId == who then Some(roles[0])
    else RoleIn(who, roles[1..])
  }

  /** The agent is asked only when some speaker is left and an agent is configured. */
  function Answer(candidates: seq<Candidate>, mappings: seq<RoleMapping>, agent: Option<Decision>): Option<Decision> {
    if Unresolved(candidates, mappings) != [] then agent else None
  }

  function AssignmentFor(c: Candidate, mappings: seq<RoleMapping>, answer: Option<Decision>): Option<RoleAssignment> {
    var m := MappingFor(c.speakerId, mappings);
    if m.Some? then Some(RoleAssignment(c.speakerId, m.value.role, m.value.confidence, c.evidence, Metadata))
    else if answer.None? then None
    else
      var r := RoleIn(c.speakerId, answer.value.roles);
      if r.None? then None
      else Some(RoleAssignment(c.speakerId, r.value.role, r.value.confidence, r.value.evidence, Agent))
  }

  predicate AllAssigned(candidates: seq<Candidate>, mappings: seq<RoleMapping>, answer: Option<Decision>) {
    forall i :: 0 <= i < |candidates| ==> AssignmentFor(candidates[i], mappings, answer).Some?
  }

  function Assignments(candidates: seq<Candidate>, mappings: seq<RoleMapping>, answer: Option<Decision>):
        (r: seq<RoleAssignment>)
    requires AllAssigned(candidates, mappings, answer)
    ensures |r| == |candidates|
    ensures forall i :: 0 <= i < |r| ==> Some(r[i]) == AssignmentFor(candidates[i], mappings, answer)
  {
    seq(|candidates|, i requires 0 <= i < |candidates| => AssignmentFor(candidates[i], mappings, answer).value)
  }

  function Resolve(candidates: seq<Candidate>, mappings: seq<RoleMapping>, agent: Option<Decision>):
        Result<RoleResolution, Error> {
    var answer := Answer(candidates, mappings, agent);
    if answer.Some? && !AgentValid(Unresolved(candidates, mappings), answer.value) then Err(AgentOutputInvalid)
    else if !AllAssigned(candidates, mappings, answer) then Err(RoleResolutionRequired)
    else
      var ordered := Assignments(candidates, mappings, answer);
      if |ordered| == 2 && ordered[0].role == ordered[1].role then Err(RoleResolutionRequired)
      else Ok(RoleResolution(ordered, exists a :: a in ordered && a.confidence < REVIEW_THRESHOLD,
                             if answer.Some? then answer.value.provenance else None))
  }

  /** The dictionary of assignments the program fills, entry by entry. */
  ghost predicate Fills(assignments: map<SpeakerId, RoleAssignment>, candidates: seq<Candidate>,
                        mappings: seq<RoleMapping>, answer: Option<Decision>) {
    forall c <- candidates :: Filled(assignments, c, mappings, answer)
  }

  predicate Filled(assignments: map<SpeakerId, RoleAssignment>, c: Candidate, mappings: seq<RoleMapping>,
                   answer: Option<Decision>) {
    var a := AssignmentFor(c, mappings, answer);
    if a.Some? then c.speakerId in assignments && assignments[c.speakerId] == a.value else c.speakerId !in assignments
  }

  ghost predicate DistinctSpeakers(candidates: seq<Candidate>) {
    forall i, j :: 0 <= i < j < |candidates| ==> candidates[i].speakerId != candidates[j].speakerId
  }

  method AssignFromMetadata(candidates: seq<Candidate>, mappings: seq<RoleMapping>)
    returns (assignments: map<SpeakerId, RoleAssignment>, unresolved: seq<Candidate>)
    requires DistinctSpeakers(candidates)
    ensures unresolved == Unresolved(candidates, mappings)
    ensures Fills(assignments, candidates, mappings, None)
  {
    assignments, unresolved := map[], [];
    for i := 0 to |candidates|
      invariant unresolved == Unresolved(candidates[..i], mappings)
      invariant forall k :: 0 <= k < i ==> Filled(assignments, candidates[k], mappings, None)
      invariant forall k :: i <= k < |candidates| ==> candidates[k].speakerId !in assignments
    {
      var c := candidates[i];
      assert candidates[..i + 1][..i] == candidates[..i];
      var m := MappingFor(c.speakerId, mappings);
      if m.None? {
        unresolved := unresolved + [c];
        continue;
      }
      assert unresolved + [] == unresolved;
      assignments := assignments[c.speakerId := RoleAssignment(c.speakerId, m.value.role, m.value.confidence,
                                                               c.evidence, Metadata)];
    }
    assert candidates[..|candidates|] == candidates;
  }

  /** The loop over the agent's roles. */
  method AssignFromAgent(candidates: seq<Candidate>, mappings: seq<RoleMapping>, before: map<SpeakerId, RoleAssignment>,
                         d: Decision)
    returns (assignments: map<SpeakerId, RoleAssignment>)
    requires DistinctSpeakers(candidates) && Fills(before, candidates, mappings, None)
    requires AgentValid(Unresolved(candidates, mappings), d)
    ensures Fills(assignments, candidates, mappings, Some(d))
  {
    assignments := before;
    for i := 0 to |d.roles|
      invariant Fills(assignments, candidates, mappings, Some(Decision(d.roles[..i], d.provenance)))
    {
      var r := d.roles[i];
      assert d.roles[..i + 1] == d.roles[..i] + [r];
      AgentStep(candidates, mappings, assignments, d, i);
      assignments := assignments[r.speakerId := RoleAssignment(r.speakerId, r.role, r.confidence, r.evidence, Agent)];
    }
    assert d.roles[..|d.roles|] == d.roles;
  }

  lemma AgentStep(candidates: seq<Candidate>, mappings: seq<RoleMapping>, before: map<SpeakerId, RoleAssignment>,
                  d: Decision, i: nat)
    requires AgentValid(Unresolved(candidates, mappings), d) && i < |d.roles|
    requires Fills(before, candidates, mappings, Some(Decision(d.roles[..i], d.provenance)))
    ensures var r := d.roles[i];
            Fills(before[r.speakerId := RoleAssignment(r.speakerId, r.role, r.confidence, r.evidence, Agent)],
                  candidates, mappings, Some(Decision(d.roles[..i] + [r], d.provenance)))
  {
    var r := d.roles[i];
    assert r in d.roles;
    var known :| known in Unresolved(candidates, mappings) && known.speakerId == r.speakerId;
    forall x <- d.roles[..i]
      ensures x.speakerId != r.speakerId
    {
      var k :| 0 <= k < i && d.roles[k] == x;
    }
    RoleInSnoc(d.roles[..i], r);
  }

  lemma {:induction false} RoleInSnoc(roles: seq<ResolvedRole>, last: ResolvedRole)
    requires forall r <- roles :: r.speakerId != last.speakerId
    ensures forall who :: RoleIn(who, roles + [last]) ==
              if who == last.speakerId then Some(last) else RoleIn(who, roles)
  {
    if roles == [] {
    } else {
      assert (roles + [last])[1..] == roles[1..] + [last];
      RoleInSnoc(roles[1..], last);
    }
  }

  /** The dictionary read back in candidate order. */
  method OrderAssignments(candidates: seq<Candidate>, mappings: seq<RoleMapping>,
                          assignments: map<SpeakerId, RoleAssignment>, ghost answer: Option<Decision>)
    returns (ordered: Option<seq<RoleAssignment>>)
    requires Fills(assignments, candidates, mappings, answer)
    ensures ordered == if AllAssigned(candidates, mappings, answer) then Some(Assignments(candidates, mappings, answer))
            else None
  {
    var list: seq<RoleAssignment> := [];
    for i := 0 to |candidates|
      invariant |list| == i
      invariant forall k :: 0 <= k < i ==> Some(list[k]) == AssignmentFor(candidates[k], mappings, answer)
    {
      assert Filled(assignments, candidates[i], mappings, answer);
      if candidates[i].speakerId !in assignments {
        return None;
      }
      list := list + [assignments[candidates[i].speakerId]];
    }
    assert list == Assignments(candidates, mappings, answer);
    ordered := Some(list);
  }

  method ResolveRoles(segments: seq<DiarizedSegment>, mappings: seq<RoleMapping>, agent: Option<Decision>)
    returns (r: Result<RoleResolution, Error>)
    ensures r == Resolve(CandidatesOf(segments), mappings, agent)
  {
    var candidates := Candidates(segments);
    var assignments, unresolved := AssignFromMetadata(candidates, mappings);
    var provenance: Option<string> := None;
    ghost var answer: Option<Decision> := None;
    if unresolved != [] && agent.Some? {
      var decision := agent.value;
      if !AgentValid(unresolved, decision) {
        return Err(AgentOutputInvalid);
      }
      provenance := decision.provenance;
      answer := agent;
      assignments := AssignFromAgent(candidates, mappings, assignments, decision);
    }
    assert answer == Answer(candidates, mappings, agent);
    var ordered := OrderAssignments(candidates, mappings, assignments, answer);
    if ordered.None? || (|ordered.value| == 2 && ordered.value[0].role == ordered.value[1].role) {
      return Err(RoleResolutionRequired);
    }
    var needsReview := exists a :: a in ordered.value && a.confidence < REVIEW_THRESHOLD;
    r := Ok(RoleResolution(ordered.value, needsReview, provenance));
  }

  // ---- What a successful resolution guarantees ----

  ghost predicate WellTyped(mappings: seq<RoleMapping>, agent: Option<Decision>) {
    (forall m <- mappings :: IsConfidence(m.confidence)) &&
    (agent.Some? ==> forall r <- agent.value.roles :: IsConfidence(r.confidence) && Distinct(r.evidence))
  }

  lemma {:induction false} MappingForMember(who: SpeakerId, mappings: seq<RoleMapping>)
    ensures MappingFor(who, mappings).Some? ==> MappingFor(who, mappings).value in mappings
  {
    if mappings == [] {
    } else {
      MappingForMember(who, mappings[..|mappings| - 1]);
    }
  }

  /** All evidence for the speaker is among the speaker's own segments. */
  predicate Grounded(a: RoleAssignment, segments: seq<DiarizedSegment>) {
    forall e :: e in a.evidence ==> e in EvidenceOf(a.speakerId, segments)
  }

  /** One assignment: it is well formed and rests on the speaker's own segments. */
  lemma AssignmentIsGrounded(segments: seq<DiarizedSegment>, mappings: seq<RoleMapping>, agent: Option<Decision>,
                             i: nat)
    requires DistinctIds(segments) && WellTyped(mappings, agent) && forall s <- segments :: IsId(s.speakerId)
    requires Resolve(CandidatesOf(segments), mappings, agent).Ok?
    requires i < |CandidatesOf(segments)|
    ensures var a := Resolve(CandidatesOf(segments), mappings, agent).value.assignments[i];
            IsRoleAssignment(a) && a.speakerId == SpeakersOf(segments)[i] && Grounded(a, segments)
  {
    var candidates := CandidatesOf(segments);
    var c := candidates[i];
    var who := c.speakerId;
    assert c in candidates && who in SpeakersOf(segments);
    var k :| 0 <= k < |segments| && segments[k].speakerId == who;
    assert segments[k] in segments;
    EvidenceMeaning(who, segments, segments[k].id);
    EvidenceIsDistinct(who, segments);
    MappingForMember(who, mappings);
    if MappingFor(who, mappings).None? {
      var d := Answer(candidates, mappings, agent).value;
      assert c in Unresolved(candidates, mappings);
      assert EvidenceGrounded(c, RoleIn(who, d.roles).value);
    }
  }

  /** Main result: a resolution that is returned passes its validator. It covers exactly the
      speakers present, in order of first appearance, and has provenance exactly when the agent
      contributed. */
  lemma ResolutionIsValid(segments: seq<DiarizedSegment>, mappings: seq<RoleMapping>, agent: Option<Decision>)
    requires segments != [] && DistinctIds(segments) && WellTyped(mappings, agent) &&
             forall s <- segments :: IsId(s.speakerId)
    requires Resolve(CandidatesOf(segments), mappings, agent).Ok?
    ensures var r := Resolve(CandidatesOf(segments), mappings, agent).value;
            IsRoleResolution(r) && |r.assignments| == |SpeakersOf(segments)| &&
            forall i :: 0 <= i < |r.assignments| ==>
              r.assignments[i].speakerId == SpeakersOf(segments)[i] && Grounded(r.assignments[i], segments)
  {
    var r := Resolve(CandidatesOf(segments), mappings, agent).value;
    forall i | 0 <= i < |r.assignments|
      ensures IsRoleAssignment(r.assignments[i]) && r.assignments[i].speakerId == SpeakersOf(segments)[i]
      ensures Grounded(r.assignments[i], segments)
    {
      AssignmentIsGrounded(segments, mappings, agent, i);
    }
    assert segments[0].speakerId in SpeakersOf(segments);
    ProvenanceIffAgent(CandidatesOf(segments), mappings, agent);
  }

  lemma ProvenanceIffAgent(candidates: seq<Candidate>, mappings: seq<RoleMapping>, agent: Option<Decision>)
    requires Resolve(candidates, mappings, agent).Ok?
    ensures var r := Resolve(candidates, mappings, agent).value;
            (exists a :: a in r.assignments && a.source == Agent) <==> r.agentProvenance.Some?
  {
    var r := Resolve(candidates, mappings, agent).value;
    var answer := Answer(candidates, mappings, agent);
    if answer.Some? {
      var c := Unresolved(candidates, mappings)[0];
      assert c in Unresolved(candidates, mappings);
      var i :| 0 <= i < |candidates| && candidates[i] == c;
      assert r.assignments[i] in r.assignments && r.assignments[i].source == Agent;
    }
  }
}
