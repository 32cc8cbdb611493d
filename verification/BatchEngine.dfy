// The canonical batch engine from aligned words to the transcript snapshot: attribution, the
// ordering check, role resolution and assembly. For words in order that fit the audio, neither
// the ordering check nor any validator of the snapshot can refuse the result.

module BatchEngine {
  import opened Common
  import opened Outcomes
  import opened Transcript
  import SpeakerAttribution
  import RoleResolving
  import TimestampRepair

  type Attributed = SpeakerAttribution.AttributedSegment
  type Diarized = RoleResolving.DiarizedSegment

  datatype Error =
    | Attribution(cause: SpeakerAttribution.Error)
    | NonMonotonicTimestamps
    | Roles(reason: RoleResolving.Error)
    | SnapshotRejected

  const UNASSIGNED: SpeakerId := "UNASSIGNED"

  /** Everything around the words that the engine is given. */
  datatype Inputs = Inputs(
    duration: real,
    language: string,
    mappings: seq<RoleResolving.RoleMapping>,
    agent: Option<RoleResolving.Decision>,
    segmentId: (nat, Attributed) -> Uuid)

  predicate StartsSorted(segments: seq<Attributed>) {
    forall i, j :: 0 <= i < j < |segments| ==> segments[i].start <= segments[j].start
  }

  function DiarizedOf(index: nat, s: Attributed, inputs: Inputs): Diarized {
    RoleResolving.DiarizedSegment(
      inputs.segmentId(index, s), if s.speaker.Some? && s.speaker.value != "" then s.speaker.value else UNASSIGNED,
      s.confidence, s.start, s.end, s.text, s.words)
  }

  function DiarizedSegments(attributed: seq<Attributed>, inputs: Inputs): (r: seq<Diarized>)
    ensures |r| == |attributed| && forall i :: 0 <= i < |r| ==> r[i] == DiarizedOf(i, attributed[i], inputs)
  {
    seq(|attributed|, i requires 0 <= i < |attributed| => DiarizedOf(i, attributed[i], inputs))
  }

  predicate IsAssigned(who: SpeakerId, assignments: seq<RoleAssignment>) {
    exists x :: x in assignments && x.speakerId == who
  }

  function AssignmentOf(who: SpeakerId, assignments: seq<RoleAssignment>): (a: RoleAssignment)
    requires IsAssigned(who, assignments)
    ensures a in assignments && a.speakerId == who
  {
    if assignments[|assignments| - 1].speakerId == who then assignments[|assignments| - 1]
    else AssignmentOf(who, assignments[..|assignments| - 1])
  }

  function ResolvedSegment(d: Diarized, a: RoleAssignment): Segment {
    Segment(d.id, d.speakerId, a.role, a.confidence, d.speakerConfidence, d.start, d.end, d.text, d.words)
  }

  /** The roles of the speakers of the attributed segments. */
  function RolesOf(attributed: seq<Attributed>, inputs: Inputs): Result<RoleResolution, RoleResolving.Error> {
    RoleResolving.Resolve(RoleResolving.CandidatesOf(DiarizedSegments(attributed, inputs)), inputs.mappings,
                          inputs.agent)
  }

  /** Which snapshot belongs to the attributed segments. */
  ghost predicate IsAssembled(t: Snapshot, attributed: seq<Attributed>, inputs: Inputs) {
    t == Snapshot(inputs.duration, t.segments, t.resolution, inputs.language, inputs.language) &&
    RolesOf(attributed, inputs) == Ok(t.resolution) &&
    Resolves(t.segments, DiarizedSegments(attributed, inputs), t.resolution)
  }

  /** Field by field: a segment keeps what was attributed to it, a segment without speaker belongs to
      UNASSIGNED, and role and role confidence are those of its speaker. */
  lemma AssembledMeaning(t: Snapshot, attributed: seq<Attributed>, inputs: Inputs, i: nat)
    requires IsAssembled(t, attributed, inputs) && i < |attributed|
    ensures |t.segments| == |attributed| && t.duration == inputs.duration && t.language == inputs.language
    ensures var x, a := t.segments[i], attributed[i];
            x.id == inputs.segmentId(i, a) && x.start == a.start && x.end == a.end && x.text == a.text &&
            x.words == a.words && x.speakerConfidence == a.confidence &&
            (a.speaker.Some? && a.speaker.value != "" ==> x.speakerId == a.speaker.value) &&
            (a.speaker.None? || a.speaker.value == "" ==> x.speakerId == "UNASSIGNED") &&
            exists y :: y in t.resolution.assignments && y.speakerId == x.speakerId &&
                        x.role == y.role && x.roleConfidence == y.confidence
  {
    var d := DiarizedOf(i, attributed[i], inputs);
    assert DiarizedSegments(attributed, inputs)[i] == d;
    var y := AssignmentOf(d.speakerId, t.resolution.assignments);
  }

  /** Assembly of the snapshot, with the validators the snapshot type runs. */
  method Assemble(attributed: seq<Attributed>, inputs: Inputs) returns (r: Result<Snapshot, Error>)
    requires Ready(attributed, inputs)
    ensures match r
            case Ok(snapshot) => IsSnapshot(snapshot) && IsAssembled(snapshot, attributed, inputs)
            case Err(error) => RolesOf(attributed, inputs).Err? && error == Roles(RolesOf(attributed, inputs).error)
  {
    var diarized := DiarizedSegments(attributed, inputs);
    DiarizedAreReady(attributed, inputs);
    var resolved := RoleResolving.ResolveRoles(diarized, inputs.mappings, inputs.agent);
    if resolved.Err? {
      return Err(Roles(resolved.error));
    }
    var resolution := resolved.value;
    assert forall i :: 0 <= i < |diarized| ==> IsAssigned(diarized[i].speakerId, resolution.assignments) by {
      RoleResolving.ResolutionIsValid(diarized, inputs.mappings, inputs.agent);
      EverySpeakerAssigned(diarized, resolution);
    }
    var segments := ResolvedSegments(diarized, resolution);
    var snapshot := Snapshot(inputs.duration, segments, resolution, inputs.language, inputs.language);
    SnapshotIsAccepted(attributed, inputs, resolution, snapshot);
    if !IsSnapshot(snapshot) {
      return Err(SnapshotRejected);
    }
    r := Ok(snapshot);
  }

  function ResolvedSegments(diarized: seq<Diarized>, resolution: RoleResolution): (segments: seq<Segment>)
    requires forall i :: 0 <= i < |diarized| ==> IsAssigned(diarized[i].speakerId, resolution.assignments)
    ensures Resolves(segments, diarized, resolution)
  {
    seq(|diarized|, i requires 0 <= i < |diarized| =>
      ResolvedSegment(diarized[i], AssignmentOf(diarized[i].speakerId, resolution.assignments)))
  }

  /** Without words nothing can be attributed. Otherwise the words are cut into the maximal runs
      of one speaker; the result is an error exactly when the text of a run is too long or the
      roles cannot be resolved, in this order, and else the snapshot assembled from the runs. */
  ghost predicate IsTranscription(r: Result<Snapshot, Error>, groups: seq<SpeakerAttribution.Group>, inputs: Inputs)
    requires forall i :: 0 <= i < |groups| ==> groups[i] != []
  {
    var attributed := SpeakerAttribution.SegmentsOf(groups);
    if exists g :: g in groups && !IsText(SpeakerAttribution.Joined(g))
    then r == Err(Attribution(SpeakerAttribution.SegmentTextTooLong))
    else match RolesOf(attributed, inputs)
      case Err(reason) => r == Err(Roles(reason))
      case Ok(_) => r.Ok? && IsAssembled(r.value, attributed, inputs)
  }

  /** Words in order that fit the audio. */
  predicate Transcribable(words: seq<Word>, duration: real) {
    Monotone(words) && forall w <- words :: IsWord(w) && w.end <= duration
  }

  /** The repaired words of the recogniser are of this kind exactly when its own times leave room for
      the repair, at every junction of two segments and before the end of the audio. */
  lemma RepairedIsTranscribableIff(segments: seq<seq<TimestampRepair.RawWord>>, duration: real)
    requires forall i :: 0 <= i < |segments| ==>
               segments[i] != [] && TimestampRepair.HaveText(segments[i], |segments[i]|)
    ensures Transcribable(Concat(TimestampRepair.AllRepaired(segments)), duration) <==>
            (forall i :: 0 < i < |segments| ==> TimestampRepair.RawJunction(segments[i - 1], segments[i])) &&
            forall i :: 0 <= i < |segments| ==> TimestampRepair.EndsBy(segments[i], duration)
  {
    TimestampRepair.OrderAcrossSegments(segments);
    TimestampRepair.AllEndBy(segments, duration);
    TimestampRepair.AllAreWords(segments);
  }

  /** A snapshot that is returned passes its validator and has all the words, in order. */
  ghost predicate IsAccepted(r: Result<Snapshot, Error>, words: seq<Word>) {
    r.Ok? ==> IsSnapshot(r.value) && AllWords(r.value.segments) == words
  }

  /** From the aligned words to the snapshot. */
  method Transcribe(words: seq<Word>, turns: seq<SpeakerAttribution.Turn>, round: real -> real, inputs: Inputs)
    returns (r: Result<Snapshot, Error>, ghost groups: seq<SpeakerAttribution.Group>)
    requires SpeakerAttribution.IsRounding(round)
    requires Transcribable(words, inputs.duration) && forall t <- turns :: IsId(t.speaker)
    requires RoleResolving.WellTyped(inputs.mappings, inputs.agent) && FreshIds(inputs)
    ensures words == [] ==> r == Err(Attribution(SpeakerAttribution.NoWordTimestamps))
    ensures words != [] ==>
              SpeakerAttribution.AreMaximalRuns(groups, SpeakerAttribution.Attributed(words, turns, round)) &&
              IsTranscription(r, groups, inputs)
    ensures IsAccepted(r, words)
  {
    var attributed, runs := SpeakerAttribution.Assign(words, turns, round);
    groups := runs;
    if attributed.Err? {
      return Err(Attribution(attributed.error)), groups;
    }
    var segments := attributed.value;
    AttributionIsReady(words, turns, round, inputs, groups);
    if !StartsSorted(segments) {
      return Err(NonMonotonicTimestamps), groups;
    }
    r := Assemble(segments, inputs);
    if r.Ok? {
      WordsAreKept(words, turns, round, groups, r.value.segments);
    }
  }

  /** The contract leaves one outcome. */
  lemma TranscriptionIsUnique(words: seq<Word>, turns: seq<SpeakerAttribution.Turn>, round: real -> real,
                              inputs: Inputs,
                              r: Result<Snapshot, Error>, groups: seq<SpeakerAttribution.Group>,
                              other: Result<Snapshot, Error>, otherGroups: seq<SpeakerAttribution.Group>)
    requires SpeakerAttribution.AreMaximalRuns(groups, SpeakerAttribution.Attributed(words, turns, round))
    requires SpeakerAttribution.AreMaximalRuns(otherGroups, SpeakerAttribution.Attributed(words, turns, round))
    requires IsTranscription(r, groups, inputs) && IsTranscription(other, otherGroups, inputs)
    ensures r == other && groups == otherGroups
  {
    SpeakerAttribution.MaximalRunsAreUnique(groups, otherGroups, SpeakerAttribution.Attributed(words, turns, round));
    if r.Ok? {
      assert r.value.segments == other.value.segments;
    }
  }

  // ---- What attribution hands to assembly ----

  /** Identifiers derived from different positions differ. */
  ghost predicate FreshIds(inputs: Inputs) {
    forall i, s, j, t :: i != j ==> inputs.segmentId(i, s) != inputs.segmentId(j, t)
  }

  ghost predicate Ready(attributed: seq<Attributed>, inputs: Inputs) {
    attributed != [] && FreshIds(inputs) && RoleResolving.WellTyped(inputs.mappings, inputs.agent) &&
    (forall i :: 0 <= i < |attributed| ==>
       SpeakerAttribution.IsAttributedSegment(attributed[i]) && attributed[i].end <= inputs.duration &&
       (attributed[i].speaker.Some? ==> IsId(attributed[i].speaker.value))) &&
    forall i, j :: 0 <= i < j < |attributed| ==>
      attributed[i].start <= attributed[j].start && attributed[i].end <= attributed[j].end
  }

  lemma SpeakersAreIds(words: seq<Word>, turns: seq<SpeakerAttribution.Turn>, round: real -> real, i: nat)
    requires SpeakerAttribution.IsRounding(round) && i < |words| && IsWord(words[i]) &&
             forall t <- turns :: IsId(t.speaker)
    ensures var who := SpeakerAttribution.Attributed(words, turns, round)[i].speaker; who.Some? ==> IsId(who.value)
  {
    if turns != [] {
      var t := SpeakerAttribution.BestSpeakerMeaning(words[i], turns, round);
    }
  }

  /** One run of words makes a valid segment of a known speaker within the audio. */
  lemma RunIsReady(words: seq<Word>, turns: seq<SpeakerAttribution.Turn>, round: real -> real, inputs: Inputs,
                   groups: seq<SpeakerAttribution.Group>, i: nat)
    requires SpeakerAttribution.IsRounding(round) && Monotone(words)
    requires (forall w <- words :: IsWord(w) && w.end <= inputs.duration) && forall t <- turns :: IsId(t.speaker)
    requires SpeakerAttribution.AreMaximalRuns(groups, SpeakerAttribution.Attributed(words, turns, round))
    requires i < |groups| && IsText(SpeakerAttribution.Joined(groups[i]))
    ensures groups[i] != []
    ensures var s := SpeakerAttribution.SegmentOf(groups[i]);
            SpeakerAttribution.IsAttributedSegment(s) && s.end <= inputs.duration &&
              (s.speaker.Some? ==> IsId(s.speaker.value))
  {
    var items := SpeakerAttribution.Attributed(words, turns, round);
    SpeakerAttribution.AttributedIsSound(words, turns, round);
    SpeakerAttribution.RunIsSound(groups, items, i);
    assert SpeakerAttribution.OneSpeaker(groups[i]);
    SpeakerAttribution.SegmentOfIsValid(groups[i]);
    var from := SpeakerAttribution.RunsAreSlices(groups, i);
    var n := |groups[i]|;
    assert groups[i][0] == items[from..from + n][0] && groups[i][n - 1] == items[from..from + n][n - 1];
    assert words[from] in words && words[from + n - 1] in words;
    SpeakersAreIds(words, turns, round, from);
  }

  lemma AttributionIsReady(words: seq<Word>, turns: seq<SpeakerAttribution.Turn>, round: real -> real, inputs: Inputs,
                           groups: seq<SpeakerAttribution.Group>)
    requires SpeakerAttribution.IsRounding(round) && Monotone(words) && words != []
    requires (forall w <- words :: IsWord(w) && w.end <= inputs.duration) && forall t <- turns :: IsId(t.speaker)
    requires RoleResolving.WellTyped(inputs.mappings, inputs.agent) && FreshIds(inputs)
    requires SpeakerAttribution.AreMaximalRuns(groups, SpeakerAttribution.Attributed(words, turns, round))
    requires forall g <- groups :: IsText(SpeakerAttribution.Joined(g))
    ensures Ready(SpeakerAttribution.SegmentsOf(groups), inputs)
    ensures StartsSorted(SpeakerAttribution.SegmentsOf(groups))
  {
    var items := SpeakerAttribution.Attributed(words, turns, round);
    var segments := SpeakerAttribution.SegmentsOf(groups);
    SpeakerAttribution.AttributedIsSound(words, turns, round);
    SpeakerAttribution.EmptyRuns(groups, items);
    forall i | 0 <= i < |segments|
      ensures SpeakerAttribution.IsAttributedSegment(segments[i]) && segments[i].end <= inputs.duration
      ensures segments[i].speaker.Some? ==> IsId(segments[i].speaker.value)
    {
      assert groups[i] in groups;
      RunIsReady(words, turns, round, inputs, groups, i);
    }
    forall i, j | 0 <= i < j < |segments|
      ensures segments[i].start <= segments[j].start && segments[i].end <= segments[j].end
    {
      SpeakerAttribution.RunsAreOrdered(groups, items, i, j);
    }
  }

  // ---- Why the snapshot is accepted ----

  lemma DiarizedAreReady(attributed: seq<Attributed>, inputs: Inputs)
    requires Ready(attributed, inputs)
    ensures var d := DiarizedSegments(attributed, inputs);
            d != [] && RoleResolving.DistinctIds(d) && forall s <- d :: IsId(s.speakerId)
  {
  }

  lemma EverySpeakerAssigned(diarized: seq<Diarized>, resolution: RoleResolution)
    requires |resolution.assignments| == |RoleResolving.SpeakersOf(diarized)|
    requires forall i :: 0 <= i < |resolution.assignments| ==>
               resolution.assignments[i].speakerId == RoleResolving.SpeakersOf(diarized)[i]
    ensures forall i :: 0 <= i < |diarized| ==> IsAssigned(diarized[i].speakerId, resolution.assignments)
    ensures forall a <- resolution.assignments ::
              exists i :: 0 <= i < |diarized| && diarized[i].speakerId == a.speakerId
  {
    var speakers := RoleResolving.SpeakersOf(diarized);
    forall i | 0 <= i < |diarized|
      ensures IsAssigned(diarized[i].speakerId, resolution.assignments)
    {
      assert diarized[i].speakerId in speakers;
      var k :| 0 <= k < |speakers| && speakers[k] == diarized[i].speakerId;
      assert resolution.assignments[k] in resolution.assignments;
    }
    forall a <- resolution.assignments
      ensures exists i :: 0 <= i < |diarized| && diarized[i].speakerId == a.speakerId
    {
      var k :| 0 <= k < |resolution.assignments| && resolution.assignments[k] == a;
      assert speakers[k] in speakers;
    }
  }

  lemma EvidenceIsKnown(diarized: seq<Diarized>, segments: seq<Segment>, a: RoleAssignment)
    requires |segments| == |diarized| && forall i :: 0 <= i < |segments| ==> segments[i].id == diarized[i].id
    requires RoleResolving.Grounded(a, diarized)
    ensures EvidenceKnown(a, segments)
  {
    forall e | e in a.evidence
      ensures exists s :: s in segments && s.id == e
    {
      RoleResolving.EvidenceMeaning(a.speakerId, diarized, e);
      var k :| 0 <= k < |diarized| && diarized[k].id == e && diarized[k].speakerId == a.speakerId;
      assert segments[k] in segments;
    }
  }

  /** How the snapshot's segments come from the diarized ones. */
  ghost predicate Resolves(segments: seq<Segment>, diarized: seq<Diarized>, resolution: RoleResolution) {
    |segments| == |diarized| &&
    forall i :: 0 <= i < |diarized| ==>
      IsAssigned(diarized[i].speakerId, resolution.assignments) &&
      segments[i] == ResolvedSegment(diarized[i], AssignmentOf(diarized[i].speakerId, resolution.assignments))
  }

  lemma SegmentsAreAccepted(attributed: seq<Attributed>, inputs: Inputs, resolution: RoleResolution,
                            segments: seq<Segment>)
    requires Ready(attributed, inputs) && IsRoleResolution(resolution)
    requires Resolves(segments, DiarizedSegments(attributed, inputs), resolution)
    ensures SegmentsValid(segments)
    ensures RolesAgree(segments, resolution.assignments)
  {
    var diarized := DiarizedSegments(attributed, inputs);
    forall s <- segments
      ensures IsSegment(s)
      ensures exists a :: a in resolution.assignments && HasRole(s, a)
    {
      var i :| 0 <= i < |segments| && segments[i] == s;
      var a := AssignmentOf(diarized[i].speakerId, resolution.assignments);
      assert IsRoleAssignment(a) && HasRole(s, a);
      assert SpeakerAttribution.IsAttributedSegment(attributed[i]);
    }
  }

  lemma OrderIsAccepted(attributed: seq<Attributed>, inputs: Inputs, resolution: RoleResolution, segments: seq<Segment>)
    requires Ready(attributed, inputs)
    requires Resolves(segments, DiarizedSegments(attributed, inputs), resolution)
    ensures SegmentsOrdered(segments, inputs.duration) && IdsDistinct(segments)
    ensures segments != [] && inputs.duration > 0.0
  {
    forall s <- segments
      ensures s.end <= inputs.duration
    {
      var i :| 0 <= i < |segments| && segments[i] == s;
      assert attributed[i].end <= inputs.duration;
    }
    assert 0.0 < attributed[0].end <= inputs.duration;
  }

  lemma EvidenceIsAccepted(diarized: seq<Diarized>, segments: seq<Segment>, resolution: RoleResolution)
    requires Resolves(segments, diarized, resolution)
    requires forall i :: 0 <= i < |resolution.assignments| ==>
               RoleResolving.Grounded(resolution.assignments[i], diarized)
    ensures AllEvidenceKnown(resolution, segments)
  {
    forall a <- resolution.assignments
      ensures EvidenceKnown(a, segments)
    {
      EvidenceIsKnown(diarized, segments, a);
    }
  }

  lemma SnapshotIsAccepted(attributed: seq<Attributed>, inputs: Inputs, resolution: RoleResolution, t: Snapshot)
    requires Ready(attributed, inputs)
    requires RoleResolving.Resolve(RoleResolving.CandidatesOf(DiarizedSegments(attributed, inputs)), inputs.mappings,
                                   inputs.agent) == Ok(resolution)
    requires Resolves(t.segments, DiarizedSegments(attributed, inputs), resolution)
    requires t == Snapshot(inputs.duration, t.segments, resolution, inputs.language, inputs.language)
    ensures IsSnapshot(t)
  {
    var diarized := DiarizedSegments(attributed, inputs);
    DiarizedAreReady(attributed, inputs);
    RoleResolving.ResolutionIsValid(diarized, inputs.mappings, inputs.agent);
    assert SegmentsValid(t.segments) && RolesAgree(t.segments, resolution.assignments) by {
      SegmentsAreAccepted(attributed, inputs, resolution, t.segments);
    }
    assert t.segments != [] && t.duration > 0.0 && SegmentsOrdered(t.segments, t.duration) &&
           IdsDistinct(t.segments) by {
      OrderIsAccepted(attributed, inputs, resolution, t.segments);
    }
    assert CoversSpeakers(resolution, t.segments) by {
      EverySpeakerAssigned(diarized, resolution);
      SameSpeakers(diarized, t.segments, resolution);
    }
    assert AllEvidenceKnown(resolution, t.segments) by {
      EvidenceIsAccepted(diarized, t.segments, resolution);
    }
  }

  lemma SameSpeakers(diarized: seq<Diarized>, segments: seq<Segment>, resolution: RoleResolution)
    requires Resolves(segments, diarized, resolution)
    requires forall a <- resolution.assignments ::
               exists i :: 0 <= i < |diarized| && diarized[i].speakerId == a.speakerId
    ensures CoversSpeakers(resolution, segments)
  {
    var left, right := set a | a in resolution.assignments :: a.speakerId, set s | s in segments :: s.speakerId;
    forall who | who in left
      ensures who in right
    {
      var a :| a in resolution.assignments && a.speakerId == who;
      var i :| 0 <= i < |diarized| && diarized[i].speakerId == who;
      assert segments[i] in segments && segments[i].speakerId == who;
    }
    forall who | who in right
      ensures who in left
    {
      var s :| s in segments && s.speakerId == who;
      var i :| 0 <= i < |segments| && segments[i] == s;
      assert IsAssigned(diarized[i].speakerId, resolution.assignments);
    }
  }

  // ---- Nothing is lost ----

  function AllWords(segments: seq<Segment>): seq<Word> {
    if segments == [] then [] else AllWords(segments[..|segments| - 1]) + segments[|segments| - 1].words
  }

  /** Every word appears exactly once, in order. */
  lemma WordsAreKept(words: seq<Word>, turns: seq<SpeakerAttribution.Turn>, round: real -> real,
                     groups: seq<SpeakerAttribution.Group>, segments: seq<Segment>)
    requires SpeakerAttribution.AreMaximalRuns(groups, SpeakerAttribution.Attributed(words, turns, round))
    requires |segments| == |groups| && forall i :: 0 <= i < |groups| ==>
               segments[i].words == SpeakerAttribution.WordsOf(groups[i])
    ensures AllWords(segments) == words
  {
    ConcatenatedWords(groups, segments);
    assert SpeakerAttribution.WordsOf(SpeakerAttribution.Attributed(words, turns, round)) == words;
  }

  lemma {:induction false} ConcatenatedWords(groups: seq<SpeakerAttribution.Group>, segments: seq<Segment>)
    requires |segments| == |groups| && forall i :: 0 <= i < |groups| ==>
               segments[i].words == SpeakerAttribution.WordsOf(groups[i])
    ensures AllWords(segments) == SpeakerAttribution.WordsOf(Concat(groups))
    decreases |groups|
  {
    if groups == [] {
    } else {
      var n := |groups| - 1;
      ConcatenatedWords(groups[..n], segments[..n]);
      var a, b := Concat(groups[..n]), groups[n];
      assert SpeakerAttribution.WordsOf(a + b) == SpeakerAttribution.WordsOf(a) + SpeakerAttribution.WordsOf(b);
    }
  }
}
