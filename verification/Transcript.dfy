// The values the batch pipeline passes on, and the validators of the final snapshot: the target
// that the attribution and role stages have to meet.

module Transcript {
  import opened Common
  import opened Outcomes

  type SpeakerId = string
  type Uuid = nat

  datatype Word = Word(text: string, start: real, end: real, confidence: Option<real>)

  datatype SpeakerRole = Operator | Client

  datatype RoleSource = Metadata | Agent

  const MAX_ID: nat := 256
  const MAX_TEXT: nat := 20_000

  predicate IsId(s: string) { 1 <= |s| <= MAX_ID }

  predicate IsText(s: string) { 1 <= |s| <= MAX_TEXT }

  predicate IsConfidence(c: real) { 0.0 <= c <= 1.0 }

  predicate IsOptionalConfidence(c: Option<real>) { c.Some? ==> IsConfidence(c.value) }

  predicate IsWord(w: Word) {
    IsId(w.text) && 0.0 <= w.start < w.end && IsOptionalConfidence(w.confidence)
  }

  /** No word starts or ends before an earlier one. */
  predicate Monotone(words: seq<Word>) {
    forall i, j :: 0 <= i < j < |words| ==> words[i].start <= words[j].start && words[i].end <= words[j].end
  }

  datatype RoleAssignment = RoleAssignment(
    speakerId: SpeakerId, role: SpeakerRole, confidence: real, evidence: seq<Uuid>, source: RoleSource)

  datatype RoleResolution = RoleResolution(assignments: seq<RoleAssignment>, needsReview: bool,
                                           agentProvenance: Option<string>)

  datatype Segment = Segment(
    id: Uuid, speakerId: SpeakerId, role: SpeakerRole, roleConfidence: real, speakerConfidence: Option<real>,
    start: real, end: real, text: string, words: seq<Word>)

  datatype Snapshot = Snapshot(
    duration: real, segments: seq<Segment>, resolution: RoleResolution, language: string, asrLanguage: string)

  // ---- What the validators accept ----

  predicate IsRoleAssignment(a: RoleAssignment) {
    IsId(a.speakerId) && IsConfidence(a.confidence) && a.evidence != [] && Distinct(a.evidence)
  }

  predicate IsRoleResolution(r: RoleResolution) {
    r.assignments != [] &&
    (forall a <- r.assignments :: IsRoleAssignment(a)) &&
    (forall i, j :: 0 <= i < j < |r.assignments| ==> r.assignments[i].speakerId != r.assignments[j].speakerId) &&
    ((exists a :: a in r.assignments && a.source == Agent) <==> r.agentProvenance.Some?) &&
    (|r.assignments| == 2 ==> r.assignments[0].role != r.assignments[1].role)
  }

  predicate WordsFit(words: seq<Word>, start: real, end: real) {
    (forall w <- words :: IsWord(w) && start <= w.start && w.end <= end) && Monotone(words)
  }

  predicate IsSegment(s: Segment) {
    IsId(s.speakerId) && IsConfidence(s.roleConfidence) && IsOptionalConfidence(s.speakerConfidence) &&
    IsText(s.text) &&
    0.0 <= s.start < s.end && WordsFit(s.words, s.start, s.end)
  }

  predicate SegmentsOrdered(segments: seq<Segment>, duration: real) {
    (forall i, j :: 0 <= i < j < |segments| ==>
       segments[i].start <= segments[j].start && segments[i].end <= segments[j].end) &&
    forall s <- segments :: s.end <= duration
  }

  /** Every segment has the role and the confidence its speaker was assigned. */
  predicate RolesAgree(segments: seq<Segment>, assignments: seq<RoleAssignment>) {
    forall s <- segments :: exists a :: a in assignments && HasRole(s, a)
  }

  predicate HasRole(s: Segment, a: RoleAssignment) {
    a.speakerId == s.speakerId && a.role == s.role && a.confidence == s.roleConfidence
  }

  /** Every piece of evidence is a segment of the transcript. */
  predicate EvidenceKnown(a: RoleAssignment, segments: seq<Segment>) {
    forall e :: e in a.evidence ==> exists s :: s in segments && s.id == e
  }

  predicate SegmentsValid(segments: seq<Segment>) {
    forall s <- segments :: IsSegment(s)
  }

  predicate IdsDistinct(segments: seq<Segment>) {
    forall i, j :: 0 <= i < j < |segments| ==> segments[i].id != segments[j].id
  }

  predicate CoversSpeakers(r: RoleResolution, segments: seq<Segment>) {
    (set a | a in r.assignments :: a.speakerId) == (set s | s in segments :: s.speakerId)
  }

  predicate AllEvidenceKnown(r: RoleResolution, segments: seq<Segment>) {
    forall a <- r.assignments :: EvidenceKnown(a, segments)
  }

  predicate IsSnapshot(t: Snapshot) {
    t.duration > 0.0 && t.segments != [] && SegmentsValid(t.segments) && IdsDistinct(t.segments) &&
    SegmentsOrdered(t.segments, t.duration) && IsRoleResolution(t.resolution) &&
    CoversSpeakers(t.resolution, t.segments) && AllEvidenceKnown(t.resolution, t.segments) &&
    RolesAgree(t.segments, t.resolution.assignments) && t.asrLanguage == t.language
  }

  // ---- The validators that run a loop ----

  /** The first `i` words fit. */
  ghost predicate FitSoFar(s: Segment, i: nat) {
    i <= |s.words| && WordsFit(s.words[..i], s.start, s.end)
  }

  lemma OneMoreWordFits(s: Segment, i: nat)
    requires i < |s.words| && IsWord(s.words[i]) && s.start <= s.words[i].start && s.words[i].end <= s.end
    requires FitSoFar(s, i)
    requires i > 0 ==> s.words[i - 1].start <= s.words[i].start && s.words[i - 1].end <= s.words[i].end
    ensures FitSoFar(s, i + 1)
  {
    assert s.words[..i + 1] == s.words[..i] + [s.words[i]];
    if i > 0 {
      assert forall k :: 0 <= k < i ==>
               s.words[..i][k].start <= s.words[..i][i - 1].start && s.words[..i][k].end <= s.words[..i][i - 1].end;
    }
  }

  lemma MisfitBreaks(s: Segment, i: nat)
    requires i < |s.words|
    requires !(s.start <= s.words[i].start && s.words[i].end <= s.end) ||
             (i > 0 && !(s.words[i - 1].start <= s.words[i].start && s.words[i - 1].end <= s.words[i].end))
    ensures !WordsFit(s.words, s.start, s.end)
  {
    assert s.words[i] in s.words;
  }

  lemma AllWordsFit(s: Segment)
    ensures FitSoFar(s, 0) && (FitSoFar(s, |s.words|) ==> WordsFit(s.words, s.start, s.end))
  {
    assert s.words[..|s.words|] == s.words;
  }

  /** The timestamp validator of a segment. */
  method ValidateSegmentTimestamps(s: Segment) returns (ok: bool)
    requires forall w <- s.words :: IsWord(w)
    ensures ok <==> s.start < s.end && WordsFit(s.words, s.start, s.end)
  {
    if s.start >= s.end {
      return false;
    }
    AllWordsFit(s);
    var previousStart, previousEnd := s.start, s.start;
    for i := 0 to |s.words|
      invariant FitSoFar(s, i)
      invariant i > 0 ==> previousStart == s.words[i - 1].start && previousEnd == s.words[i - 1].end
      invariant i == 0 ==> previousStart == previousEnd == s.start
    {
      var w := s.words[i];
      assert w in s.words;
      if w.start < s.start || w.end > s.end {
        MisfitBreaks(s, i);
        return false;
      }
      if w.start < previousStart || w.end < previousEnd {
        MisfitBreaks(s, i);
        return false;
      }
      OneMoreWordFits(s, i);
      previousStart, previousEnd := w.start, w.end;
    }
    ok := true;
  }

  /** The part of the snapshot validator that walks over the segments. */
  method ValidateSegmentOrder(segments: seq<Segment>, duration: real) returns (ok: bool)
    requires forall s <- segments :: 0.0 <= s.start < s.end
    ensures ok <==> SegmentsOrdered(segments, duration)
  {
    var previousStart, previousEnd := -1.0, 0.0;
    for i := 0 to |segments|
      invariant SegmentsOrdered(segments[..i], duration)
      invariant i > 0 ==> previousStart == segments[i - 1].start && previousEnd == segments[i - 1].end
      invariant i == 0 ==> previousStart == -1.0 && previousEnd == 0.0
    {
      var s := segments[i];
      assert s in segments;
      if s.start < previousStart || s.end < previousEnd {
        assert i > 0 && !(segments[i - 1].start <= segments[i].start && segments[i - 1].end <= segments[i].end);
        return false;
      }
      if s.end > duration {
        return false;
      }
      assert segments[..i + 1] == segments[..i] + [s];
      previousStart, previousEnd := s.start, s.end;
    }
    assert segments[..|segments|] == segments;
    ok := true;
  }
}
