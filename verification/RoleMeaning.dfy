// What the resolution of roles says and when there is none, in terms of the segments, the caller's
// metadata and the agent's answer alone.

module RoleMeaning {
  import opened Common
  import opened Outcomes
  import opened RoleResolving
  import opened Transcript

  // ---- The demands ----

  ghost predicate HasMapping(who: SpeakerId, mappings: seq<RoleMapping>) {
    exists m :: m in mappings && m.speakerId == who
  }

  /** Of several entries for one speaker the last one counts. */
  ghost predicate IsLastMapping(m: RoleMapping, who: SpeakerId, mappings: seq<RoleMapping>) {
    exists k :: 0 <= k < |mappings| && mappings[k] == m && m.speakerId == who &&
                forall j :: k < j < |mappings| ==> mappings[j].speakerId != who
  }

  ghost predicate Increasing(positions: seq<nat>) {
    forall k, l :: 0 <= k < l < |positions| ==> positions[k] < positions[l]
  }

  ghost predicate StandAt(ids: seq<Uuid>, positions: seq<nat>, who: SpeakerId, segments: seq<DiarizedSegment>) {
    Increasing(positions) && |positions| == |ids| &&
    (forall k :: 0 <= k < |ids| ==> positions[k] < |segments| && ids[k] == segments[positions[k]].id) &&
    forall i: nat :: i < |segments| ==> (segments[i].speakerId == who <==> i in positions)
  }

  /** The identifiers of all segments of the speaker, and of no others, in their order. */
  ghost predicate AreOwnSegments(ids: seq<Uuid>, who: SpeakerId, segments: seq<DiarizedSegment>) {
    exists positions :: StandAt(ids, positions, who, segments)
  }

  ghost predicate FromMetadata(a: RoleAssignment, segments: seq<DiarizedSegment>, mappings: seq<RoleMapping>) {
    a.source == Metadata && AreOwnSegments(a.evidence, a.speakerId, segments) &&
    exists m :: IsLastMapping(m, a.speakerId, mappings) && a.role == m.role && a.confidence == m.confidence
  }

  ghost predicate FromAgent(a: RoleAssignment, agent: Option<Decision>) {
    a.source == Agent && agent.Some? &&
    exists r :: r in agent.value.roles && r.speakerId == a.speakerId && r.role == a.role &&
                r.confidence == a.confidence && r.evidence == a.evidence
  }

  /** Metadata comes first, the agent is for the rest. */
  ghost predicate HasItsSource(a: RoleAssignment, segments: seq<DiarizedSegment>, mappings: seq<RoleMapping>,
                               agent: Option<Decision>) {
    if HasMapping(a.speakerId, mappings) then FromMetadata(a, segments, mappings) else FromAgent(a, agent)
  }

  ghost predicate SomeoneIsLeft(segments: seq<DiarizedSegment>, mappings: seq<RoleMapping>) {
    exists s :: s in segments && !HasMapping(s.speakerId, mappings)
  }

  /** The evidence of an entry is not empty and consists of segments of the entry's own speaker. */
  ghost predicate RestsOnOwn(r: ResolvedRole, segments: seq<DiarizedSegment>) {
    r.evidence != [] &&
    forall e :: e in r.evidence ==> exists s :: s in segments && s.id == e && s.speakerId == r.speakerId
  }

  /** The rules for the agent's answer: nobody twice, only speakers that are left, provenance with any
      entry, and evidence of the speaker's own. */
  ghost predicate AnswerIsSound(segments: seq<DiarizedSegment>, mappings: seq<RoleMapping>, d: Decision) {
    (forall i, j :: 0 <= i < j < |d.roles| ==> d.roles[i].speakerId != d.roles[j].speakerId) &&
    (forall r <- d.roles :: IsLeft(r.speakerId, segments, mappings)) &&
    (d.roles != [] ==> d.provenance.Some?) &&
    forall r <- d.roles :: RestsOnOwn(r, segments)
  }

  ghost predicate IsLeft(who: SpeakerId, segments: seq<DiarizedSegment>, mappings: seq<RoleMapping>) {
    !HasMapping(who, mappings) && exists s :: s in segments && s.speakerId == who
  }

  ghost predicate AgentAnswers(who: SpeakerId, agent: Option<Decision>) {
    agent.Some? && exists r :: r in agent.value.roles && r.speakerId == who
  }

  ghost predicate AgentIsRefused(segments: seq<DiarizedSegment>, mappings: seq<RoleMapping>, agent: Option<Decision>) {
    SomeoneIsLeft(segments, mappings) && agent.Some? && !AnswerIsSound(segments, mappings, agent.value)
  }

  ghost predicate SomeoneHasNoRole(segments: seq<DiarizedSegment>, mappings: seq<RoleMapping>,
                                   agent: Option<Decision>) {
    exists s :: s in segments && !HasMapping(s.speakerId, mappings) && !AgentAnswers(s.speakerId, agent)
  }

  /** The role a speaker gets: that of the last entry of the metadata, or the agent's. */
  ghost predicate Gives(who: SpeakerId, role: SpeakerRole, mappings: seq<RoleMapping>, agent: Option<Decision>) {
    if HasMapping(who, mappings) then exists m :: IsLastMapping(m, who, mappings) && m.role == role
    else agent.Some? && exists r :: r in agent.value.roles && r.speakerId == who && r.role == role
  }

  /** There are two speakers, and both get one role. */
  ghost predicate TwoShareARole(segments: seq<DiarizedSegment>, mappings: seq<RoleMapping>, agent: Option<Decision>) {
    exists u, v, role :: u != v && AreTheSpeakers(u, v, segments) &&
                         Gives(u, role, mappings, agent) && Gives(v, role, mappings, agent)
  }

  ghost predicate AreTheSpeakers(u: SpeakerId, v: SpeakerId, segments: seq<DiarizedSegment>) {
    (exists s :: s in segments && s.speakerId == u) && (exists s :: s in segments && s.speakerId == v) &&
    forall s <- segments :: s.speakerId == u || s.speakerId == v
  }

  // ---- What the functions of the resolver mean ----

  lemma {:induction false} MappingForIsLast(who: SpeakerId, mappings: seq<RoleMapping>)
    ensures MappingFor(who, mappings).Some? <==> HasMapping(who, mappings)
    ensures MappingFor(who, mappings).Some? ==> IsLastMapping(MappingFor(who, mappings).value, who, mappings)
  {
    if mappings == [] {
    } else {
      var n := |mappings| - 1;
      var init := mappings[..n];
      assert mappings == init + [mappings[n]];
      if mappings[n].speakerId == who {
        assert mappings[n] in mappings;
      } else {
        MappingForIsLast(who, init);
        if HasMapping(who, mappings) {
          var m :| m in mappings && m.speakerId == who;
          assert m in init;
        }
        if MappingFor(who, init).Some? {
          var m := MappingFor(who, init).value;
          var k :| 0 <= k < n && init[k] == m && forall j :: k < j < n ==> init[j].speakerId != who;
          assert m in mappings;
          assert mappings[k] == m && forall j :: k < j < |mappings| ==> mappings[j].speakerId != who;
        }
      }
    }
  }

  lemma LastMappingIsUnique(m: RoleMapping, n: RoleMapping, who: SpeakerId, mappings: seq<RoleMapping>)
    requires IsLastMapping(m, who, mappings) && IsLastMapping(n, who, mappings)
    ensures m == n
  {
  }

  lemma {:induction false} EvidenceStands(who: SpeakerId, segments: seq<DiarizedSegment>) returns (positions: seq<nat>)
    ensures StandAt(EvidenceOf(who, segments), positions, who, segments)
  {
    if segments == [] {
      positions := [];
    } else {
      var n := |segments| - 1;
      var init := segments[..n];
      var before := EvidenceStands(who, init);
      if segments[n].speakerId == who {
        positions := before + [n];
        OneMoreStands(EvidenceOf(who, init), before, who, init, segments[n]);
      } else {
        positions := before;
        OthersDoNotStand(EvidenceOf(who, init), before, who, init, segments[n]);
      }
      assert segments == init + [segments[n]];
    }
  }

  lemma OneMoreStands(ids: seq<Uuid>, before: seq<nat>, who: SpeakerId, init: seq<DiarizedSegment>, s: DiarizedSegment)
    requires StandAt(ids, before, who, init) && s.speakerId == who
    ensures StandAt(ids + [s.id], before + [|init|], who, init + [s])
  {
    var n, positions, segments := |init|, before + [|init|], init + [s];
    assert forall k :: 0 <= k < |before| ==> positions[k] == before[k] < n;
    forall i: nat | i < |segments| ensures segments[i].speakerId == who <==> i in positions {
      if i < n {
        assert segments[i] == init[i];
      }
    }
  }

  lemma OthersDoNotStand(ids: seq<Uuid>, before: seq<nat>, who: SpeakerId, init: seq<DiarizedSegment>,
                         s: DiarizedSegment)
    requires StandAt(ids, before, who, init) && s.speakerId != who
    ensures StandAt(ids, before, who, init + [s])
  {
    var n, segments := |init|, init + [s];
    assert forall i :: i in before ==> i < n;
    forall i: nat | i < |segments| ensures segments[i].speakerId == who <==> i in before {
      if i < n {
        assert segments[i] == init[i];
      }
    }
  }

  /** The candidates, seen from the segments. */
  lemma CandidateOf(who: SpeakerId, segments: seq<DiarizedSegment>) returns (c: Candidate)
    requires exists s :: s in segments && s.speakerId == who
    ensures c in CandidatesOf(segments) && c.speakerId == who && c.evidence == EvidenceOf(who, segments)
  {
    var s :| s in segments && s.speakerId == who;
    var i :| 0 <= i < |segments| && segments[i] == s;
    assert who in SpeakersOf(segments);
    var k :| 0 <= k < |SpeakersOf(segments)| && SpeakersOf(segments)[k] == who;
    c := CandidatesOf(segments)[k];
  }

  lemma CandidateMeaning(c: Candidate, segments: seq<DiarizedSegment>)
    requires c in CandidatesOf(segments)
    ensures c.evidence == EvidenceOf(c.speakerId, segments)
    ensures exists s :: s in segments && s.speakerId == c.speakerId
  {
    var k :| 0 <= k < |CandidatesOf(segments)| && CandidatesOf(segments)[k] == c;
    assert c.speakerId == SpeakersOf(segments)[k] && c.speakerId in SpeakersOf(segments);
    var i :| 0 <= i < |segments| && segments[i].speakerId == c.speakerId;
    assert segments[i] in segments;
  }

  lemma GroundedMeaning(c: Candidate, r: ResolvedRole, segments: seq<DiarizedSegment>)
    requires c in CandidatesOf(segments) && c.speakerId == r.speakerId
    ensures EvidenceGrounded(c, r) <==> RestsOnOwn(r, segments)
  {
    CandidateMeaning(c, segments);
    forall e | e in r.evidence
      ensures e in c.evidence <==> exists s :: s in segments && s.id == e && s.speakerId == r.speakerId
    {
      EvidenceMeaning(r.speakerId, segments, e);
      if s :| s in segments && s.id == e && s.speakerId == r.speakerId {
        var i :| 0 <= i < |segments| && segments[i] == s;
      }
      if i :| 0 <= i < |segments| && segments[i].id == e && segments[i].speakerId == r.speakerId {
        assert segments[i] in segments;
      }
    }
  }

  lemma LeftMeaning(who: SpeakerId, segments: seq<DiarizedSegment>, mappings: seq<RoleMapping>)
    ensures IsLeft(who, segments, mappings) <==>
            exists c :: c in Unresolved(CandidatesOf(segments), mappings) && c.speakerId == who
  {
    MappingForIsLast(who, mappings);
    if IsLeft(who, segments, mappings) {
      var c := CandidateOf(who, segments);
    }
    if c :| c in Unresolved(CandidatesOf(segments), mappings) && c.speakerId == who {
      CandidateMeaning(c, segments);
    }
  }

  lemma AnyoneLeftMeaning(segments: seq<DiarizedSegment>, mappings: seq<RoleMapping>)
    ensures SomeoneIsLeft(segments, mappings) <==> Unresolved(CandidatesOf(segments), mappings) != []
  {
    var left := Unresolved(CandidatesOf(segments), mappings);
    if s :| s in segments && !HasMapping(s.speakerId, mappings) {
      LeftMeaning(s.speakerId, segments, mappings);
    }
    if left != [] {
      assert left[0] in left;
      LeftMeaning(left[0].speakerId, segments, mappings);
    }
  }

  lemma AnswerMeaning(segments: seq<DiarizedSegment>, mappings: seq<RoleMapping>, d: Decision)
    ensures AgentValid(Unresolved(CandidatesOf(segments), mappings), d) <==> AnswerIsSound(segments, mappings, d)
  {
    var left := Unresolved(CandidatesOf(segments), mappings);
    forall r | r in d.roles
      ensures IsLeft(r.speakerId, segments, mappings) <==> exists c :: c in left && c.speakerId == r.speakerId
    {
      LeftMeaning(r.speakerId, segments, mappings);
    }
    forall r, c | r in d.roles && c in left && c.speakerId == r.speakerId
      ensures EvidenceGrounded(c, r) <==> RestsOnOwn(r, segments)
    {
      GroundedMeaning(c, r, segments);
    }
  }

  lemma AgentRefusedMeaning(segments: seq<DiarizedSegment>, mappings: seq<RoleMapping>, agent: Option<Decision>)
    ensures AgentIsRefused(segments, mappings, agent) <==>
            Resolve(CandidatesOf(segments), mappings, agent) == Err(AgentOutputInvalid)
  {
    AnyoneLeftMeaning(segments, mappings);
    if agent.Some? {
      AnswerMeaning(segments, mappings, agent.value);
    }
  }

  /** What one speaker is assigned, when the agent is not refused. */
  lemma AssignmentMeaning(c: Candidate, segments: seq<DiarizedSegment>, mappings: seq<RoleMapping>,
                          agent: Option<Decision>)
    requires c in CandidatesOf(segments)
    ensures var a := AssignmentFor(c, mappings, Answer(CandidatesOf(segments), mappings, agent));
            (a.Some? <==> HasMapping(c.speakerId, mappings) || AgentAnswers(c.speakerId, agent)) &&
            (a.Some? ==>
               a.value.speakerId == c.speakerId &&
               HasItsSource(a.value, segments, mappings, agent))
  {
    MappingForIsLast(c.speakerId, mappings);
    CandidateMeaning(c, segments);
    if HasMapping(c.speakerId, mappings) {
      var positions := EvidenceStands(c.speakerId, segments);
    } else {
      assert c in Unresolved(CandidatesOf(segments), mappings);
    }
  }

  lemma SomeoneMeaning(segments: seq<DiarizedSegment>, mappings: seq<RoleMapping>, agent: Option<Decision>)
    ensures SomeoneHasNoRole(segments, mappings, agent) <==>
            !AllAssigned(CandidatesOf(segments), mappings, Answer(CandidatesOf(segments), mappings, agent))
  {
    var candidates := CandidatesOf(segments);
    if s :| s in segments && !HasMapping(s.speakerId, mappings) && !AgentAnswers(s.speakerId, agent) {
      var c := CandidateOf(s.speakerId, segments);
      AssignmentMeaning(c, segments, mappings, agent);
    }
    if i :| 0 <= i < |candidates| && AssignmentFor(candidates[i], mappings, Answer(candidates, mappings, agent)).None? {
      AssignmentMeaning(candidates[i], segments, mappings, agent);
      CandidateMeaning(candidates[i], segments);
    }
  }

  /** Main result on what is said: every assignment has the source, the role, the confidence and the
      evidence it must have, a review is asked for exactly on a confidence below 0.75, and provenance
      is the agent's when it was asked. */
  lemma ResolutionMeaning(segments: seq<DiarizedSegment>, mappings: seq<RoleMapping>, agent: Option<Decision>)
    requires Resolve(CandidatesOf(segments), mappings, agent).Ok?
    ensures var r := Resolve(CandidatesOf(segments), mappings, agent).value;
            (forall a <- r.assignments ::
               HasItsSource(a, segments, mappings, agent)) &&
            (r.needsReview <==> exists a :: a in r.assignments && a.confidence < 0.75) &&
            r.agentProvenance ==
            if SomeoneIsLeft(segments, mappings) && agent.Some? then agent.value.provenance else None
  {
    var candidates, r := CandidatesOf(segments), Resolve(CandidatesOf(segments), mappings, agent).value;
    AnyoneLeftMeaning(segments, mappings);
    forall a <- r.assignments
      ensures HasItsSource(a, segments, mappings, agent)
    {
      var i :| 0 <= i < |r.assignments| && r.assignments[i] == a;
      AssignmentMeaning(candidates[i], segments, mappings, agent);
    }
  }

  // ---- When there is none ----

  lemma {:induction false} OnlyTwo(segments: seq<DiarizedSegment>, u: SpeakerId, v: SpeakerId)
    requires u != v && AreTheSpeakers(u, v, segments)
    ensures SpeakersOf(segments) == [u, v] || SpeakersOf(segments) == [v, u]
  {
    var speakers := SpeakersOf(segments);
    var s :| s in segments && s.speakerId == u;
    var t :| t in segments && t.speakerId == v;
    var i :| 0 <= i < |segments| && segments[i] == s;
    var j :| 0 <= j < |segments| && segments[j] == t;
    assert u in speakers && v in speakers;
    forall x | x in speakers ensures x == u || x == v {
      var k :| 0 <= k < |segments| && segments[k].speakerId == x;
      assert segments[k] in segments;
    }
    DistinctPair(speakers, u, v);
  }

  lemma DistinctPair(s: seq<SpeakerId>, u: SpeakerId, v: SpeakerId)
    requires Distinct(s) && u != v && u in s && v in s && forall x :: x in s ==> x == u || x == v
    ensures s == [u, v] || s == [v, u]
  {
    if |s| > 2 {
      ThreeOfTwo(s, u, v);
    }
    assert s[0] in s && (|s| > 1 ==> s[1] in s);
  }

  lemma ThreeOfTwo(s: seq<SpeakerId>, u: SpeakerId, v: SpeakerId)
    requires |s| > 2 && forall x :: x in s ==> x == u || x == v
    ensures !Distinct(s)
  {
    assert s[0] in s && s[1] in s && s[2] in s;
    assert s[0] == s[1] || s[1] == s[2] || s[0] == s[2];
  }

  lemma TwoAreTheSpeakers(segments: seq<DiarizedSegment>)
    requires |SpeakersOf(segments)| == 2
    ensures SpeakersOf(segments)[0] != SpeakersOf(segments)[1]
    ensures AreTheSpeakers(SpeakersOf(segments)[0], SpeakersOf(segments)[1], segments)
  {
    var speakers := SpeakersOf(segments);
    assert speakers[0] in speakers && speakers[1] in speakers;
    var i :| 0 <= i < |segments| && segments[i].speakerId == speakers[0];
    var j :| 0 <= j < |segments| && segments[j].speakerId == speakers[1];
    assert segments[i] in segments && segments[j] in segments;
    forall s <- segments ensures s.speakerId == speakers[0] || s.speakerId == speakers[1] {
      var k :| 0 <= k < |segments| && segments[k] == s;
      assert s.speakerId in speakers;
    }
  }

  /** The role a speaker is assigned is the one it gets. */
  lemma RoleMeaning(a: RoleAssignment, role: SpeakerRole, segments: seq<DiarizedSegment>, mappings: seq<RoleMapping>,
                    agent: Option<Decision>)
    requires HasItsSource(a, segments, mappings, agent)
    requires agent.Some? ==> forall i, j :: 0 <= i < j < |agent.value.roles| ==>
               agent.value.roles[i].speakerId != agent.value.roles[j].speakerId
    ensures Gives(a.speakerId, role, mappings, agent) <==> a.role == role
  {
    if HasMapping(a.speakerId, mappings) {
      var m :| IsLastMapping(m, a.speakerId, mappings) && a.role == m.role && a.confidence == m.confidence;
      if n :| IsLastMapping(n, a.speakerId, mappings) && n.role == role {
        LastMappingIsUnique(m, n, a.speakerId, mappings);
      }
    }
  }

  lemma SharedRoleMeaning(segments: seq<DiarizedSegment>, mappings: seq<RoleMapping>, agent: Option<Decision>)
    requires !SomeoneHasNoRole(segments, mappings, agent) && !AgentIsRefused(segments, mappings, agent)
    requires AllAssigned(CandidatesOf(segments), mappings, Answer(CandidatesOf(segments), mappings, agent))
    ensures var candidates := CandidatesOf(segments);
            var ordered := Assignments(candidates, mappings, Answer(candidates, mappings, agent));
            TwoShareARole(segments, mappings, agent) <==> |ordered| == 2 && ordered[0].role == ordered[1].role
  {
    var candidates := CandidatesOf(segments);
    var ordered := Assignments(candidates, mappings, Answer(candidates, mappings, agent));
    var speakers := SpeakersOf(segments);
    if |speakers| == 2 {
      AssignedRole(segments, mappings, agent, 0);
      AssignedRole(segments, mappings, agent, 1);
      TwoAreTheSpeakers(segments);
      if ordered[0].role == ordered[1].role {
        var role := ordered[0].role;
        assert Gives(speakers[0], role, mappings, agent) && Gives(speakers[1], role, mappings, agent);
      }
    }
    if u, v, role :| u != v && AreTheSpeakers(u, v, segments) &&
                     Gives(u, role, mappings, agent) && Gives(v, role, mappings, agent) {
      OnlyTwo(segments, u, v);
    }
  }

  lemma AssignedRole(segments: seq<DiarizedSegment>, mappings: seq<RoleMapping>, agent: Option<Decision>, i: nat)
    requires !AgentIsRefused(segments, mappings, agent) && i < |CandidatesOf(segments)|
    requires AllAssigned(CandidatesOf(segments), mappings, Answer(CandidatesOf(segments), mappings, agent))
    ensures var a := Assignments(CandidatesOf(segments), mappings, Answer(CandidatesOf(segments), mappings, agent))[i];
            forall role :: Gives(SpeakersOf(segments)[i], role, mappings, agent) <==> a.role == role
  {
    var c := CandidatesOf(segments)[i];
    var a := Assignments(CandidatesOf(segments), mappings, Answer(CandidatesOf(segments), mappings, agent))[i];
    AssignmentMeaning(c, segments, mappings, agent);
    forall role ensures Gives(a.speakerId, role, mappings, agent) <==> a.role == role {
      if HasMapping(a.speakerId, mappings) {
        RoleMeaning(a, role, segments, mappings, None);
      } else {
        CandidateMeaning(c, segments);
        RoleMeaning(a, role, segments, mappings, agent);
      }
    }
  }

  /** Main result on refusals: the agent's answer is refused exactly when it was needed and breaks a
      rule; otherwise a resolution is missing exactly when somebody has no role or the two speakers
      there are share one. */
  lemma RefusalsAreExact(segments: seq<DiarizedSegment>, mappings: seq<RoleMapping>, agent: Option<Decision>)
    ensures var r := Resolve(CandidatesOf(segments), mappings, agent);
            (r == Err(AgentOutputInvalid) <==> AgentIsRefused(segments, mappings, agent)) &&
            (r == Err(RoleResolutionRequired) <==>
             !AgentIsRefused(segments, mappings, agent) &&
             (SomeoneHasNoRole(segments, mappings, agent) || TwoShareARole(segments, mappings, agent)))
  {
    AgentRefusedMeaning(segments, mappings, agent);
    SomeoneMeaning(segments, mappings, agent);
    if !AgentIsRefused(segments, mappings, agent) && !SomeoneHasNoRole(segments, mappings, agent) {
      SharedRoleMeaning(segments, mappings, agent);
    }
  }

  /** The speakers are listed in the order in which they first speak. */
  ghost predicate FirstSpeaksAt(who: SpeakerId, segments: seq<DiarizedSegment>, i: nat) {
    i < |segments| && segments[i].speakerId == who && forall j :: 0 <= j < i ==> segments[j].speakerId != who
  }

  lemma {:induction false} SpeakersInOrder(segments: seq<DiarizedSegment>, k: nat, l: nat, i: nat, j: nat)
    requires k < l < |SpeakersOf(segments)|
    requires FirstSpeaksAt(SpeakersOf(segments)[k], segments, i) && FirstSpeaksAt(SpeakersOf(segments)[l], segments, j)
    ensures i < j
  {
    var n := |segments| - 1;
    var init := segments[..n];
    var earlier := SpeakersOf(init);
    assert forall m :: 0 <= m < n ==> init[m] == segments[m];
    assert SpeakersOf(segments)[k] == earlier[k] && earlier[k] in earlier;
    var m :| 0 <= m < |init| && init[m].speakerId == earlier[k];
    assert i <= m < n;
    if l < |earlier| {
      assert earlier[l] in earlier;
      var o :| 0 <= o < |init| && init[o].speakerId == earlier[l];
      assert j <= o < n;
      SpeakersInOrder(init, k, l, i, j);
    } else {
      assert j == n;
    }
  }
}
