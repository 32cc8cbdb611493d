// Diarization error rate and time-weighted role accuracy, both integrated over the elementary
// intervals of the boundary sweep.

module Diarization {
  import opened Common
  import opened Outcomes
  import opened SpeechIntervals
  import opened SpeakerMapping

  // ---- The integrands ----

  ghost function ReferenceCount(reference: seq<Segment>): real -> real {
    t => |ActiveSpeakers(reference, t)| as real
  }

  function MissOf(rs: set<Label>, hs: set<Label>): real {
    if hs == {} then |rs| as real else 0.0
  }

  /** Reference speakers at times when some hypothesis speaker is active. */
  function AnsweredOf(rs: set<Label>, hs: set<Label>): real {
    if hs == {} then 0.0 else |rs| as real
  }

  function FalseAlarmOf(rs: set<Label>, hs: set<Label>): real {
    if |hs| > |rs| then (|hs| - |rs|) as real else 0.0
  }

  /** The reference speakers no active hypothesis speaker is mapped to. */
  function Unmatched(rs: set<Label>, hs: set<Label>, m: map<Label, Label>): set<Label> {
    set r | r in rs && !exists h :: h in hs && h in m && m[h] == r
  }

  function ConfusionOf(rs: set<Label>, hs: set<Label>, m: map<Label, Label>): real {
    if hs == {} then 0.0 else |Unmatched(rs, hs, m)| as real
  }

  ghost function MissCount(reference: seq<Segment>, hypothesis: seq<Segment>): real -> real {
    t => MissOf(ActiveSpeakers(reference, t), ActiveSpeakers(hypothesis, t))
  }

  ghost function AnsweredCount(reference: seq<Segment>, hypothesis: seq<Segment>): real -> real {
    t => AnsweredOf(ActiveSpeakers(reference, t), ActiveSpeakers(hypothesis, t))
  }

  ghost function FalseAlarmCount(reference: seq<Segment>, hypothesis: seq<Segment>): real -> real {
    t => FalseAlarmOf(ActiveSpeakers(reference, t), ActiveSpeakers(hypothesis, t))
  }

  ghost function ConfusionCount(reference: seq<Segment>, hypothesis: seq<Segment>, m: map<Label, Label>): real -> real {
    t => ConfusionOf(ActiveSpeakers(reference, t), ActiveSpeakers(hypothesis, t), m)
  }

  ghost function SharedCount(reference: seq<Segment>, hypothesis: seq<Segment>): real -> real {
    t => |ActiveSpeakers(reference, t) * ActiveSpeakers(hypothesis, t)| as real
  }

  ghost function Time(f: real -> real, reference: seq<Segment>, hypothesis: seq<Segment>): real {
    Integral(f, Grid(reference, hypothesis))
  }

  // ---- Confusion ----

  lemma {:induction false} ImageSize(hs: set<Label>, m: map<Label, Label>)
    requires Injective(m) && forall h :: h in hs ==> h in m
    ensures |set h | h in hs :: m[h]| == |hs|
  {
    if hs == {} {
      assert (set h | h in hs :: m[h]) == {};
    } else {
      var x :| x in hs;
      var rest := hs - {x};
      ImageSize(rest, m);
      assert (set h | h in hs :: m[h]) == (set h | h in rest :: m[h]) + {m[x]};
    }
  }

  /** Under an injective mapping every reference speaker is matched by one label or by none. */
  lemma UnmatchedSize(rs: set<Label>, hs: set<Label>, m: map<Label, Label>)
    requires Injective(m)
    ensures |Unmatched(rs, hs, m)| == |rs| - |Hits(rs, hs, m)|
  {
    var hits := Hits(rs, hs, m);
    var image := set h | h in hits :: m[h];
    ImageSize(hits, m);
    assert rs == Unmatched(rs, hs, m) + image && Unmatched(rs, hs, m) !! image;
  }

  /** How an instant counts. Every reference speaker is missed, confused or matched; they are missed in
      silence and confused when somebody answers; and every hypothesis speaker beyond the number of
      reference speakers is a false alarm. */
  lemma InstantMeaning(rs: set<Label>, hs: set<Label>, m: map<Label, Label>)
    requires Injective(m)
    ensures MissOf(rs, hs) + ConfusionOf(rs, hs, m) + |Hits(rs, hs, m)| as real == |rs| as real
    ensures hs == {} ==> MissOf(rs, hs) == |rs| as real && ConfusionOf(rs, hs, m) == 0.0
    ensures hs != {} ==> MissOf(rs, hs) == 0.0
    ensures FalseAlarmOf(rs, hs) + (if |rs| <= |hs| then |rs| else |hs|) as real == |hs| as real
  {
    UnmatchedSize(rs, hs, m);
    if hs == {} {
      assert Hits(rs, hs, m) == {};
    }
  }

  ghost function HypothesisCount(hypothesis: seq<Segment>): real -> real {
    t => |ActiveSpeakers(hypothesis, t)| as real
  }

  /** As many speakers of either side as can be paired. */
  ghost function PairedCount(reference: seq<Segment>, hypothesis: seq<Segment>): real -> real {
    t => (var r, h := |ActiveSpeakers(reference, t)|, |ActiveSpeakers(hypothesis, t)|; if r <= h then r else h) as real
  }

  /** Hypothesis time is false alarm or could be paired with a reference speaker, and nothing else. */
  lemma HypothesisTimeIsConserved(reference: seq<Segment>, hypothesis: seq<Segment>, r: Report)
    requires IsReport(reference, hypothesis, r)
    ensures Time(HypothesisCount(hypothesis), reference, hypothesis) ==
            r.falseAlarm + Time(PairedCount(reference, hypothesis), reference, hypothesis)
  {
    forall t
      ensures HypothesisCount(hypothesis)(t) ==
              FalseAlarmCount(reference, hypothesis)(t) + PairedCount(reference, hypothesis)(t)
    {
      InstantMeaning(ActiveSpeakers(reference, t), ActiveSpeakers(hypothesis, t), map[]);
    }
    IntegralAdds(FalseAlarmCount(reference, hypothesis), PairedCount(reference, hypothesis),
                 HypothesisCount(hypothesis), Grid(reference, hypothesis));
  }

  /** Confused time is the answered time minus the correctly mapped time. */
  lemma ConfusionIsUnmappedTime(reference: seq<Segment>, hypothesis: seq<Segment>, m: map<Label, Label>)
    requires Injective(m)
    ensures Time(ConfusionCount(reference, hypothesis, m), reference, hypothesis) ==
            Time(AnsweredCount(reference, hypothesis), reference, hypothesis) - Agreement(reference, hypothesis, m)
  {
    forall t
      ensures AnsweredCount(reference, hypothesis)(t) ==
              ConfusionCount(reference, hypothesis, m)(t) + MatchedCount(reference, hypothesis, m)(t)
    {
      UnmatchedSize(ActiveSpeakers(reference, t), ActiveSpeakers(hypothesis, t), m);
    }
    IntegralAdds(ConfusionCount(reference, hypothesis, m), MatchedCount(reference, hypothesis, m),
                 AnsweredCount(reference, hypothesis), Grid(reference, hypothesis));
  }

  /** No injective mapping leaves less confusion than an optimal one. */
  lemma OptimalLeavesLeastConfusion(reference: seq<Segment>, hypothesis: seq<Segment>, best: map<Label, Label>,
                                    other: map<Label, Label>)
    requires IsOptimal(reference, hypothesis, best) && Injective(other)
    ensures Time(ConfusionCount(reference, hypothesis, best), reference, hypothesis) <=
            Time(ConfusionCount(reference, hypothesis, other), reference, hypothesis)
  {
    ConfusionIsUnmappedTime(reference, hypothesis, best);
    ConfusionIsUnmappedTime(reference, hypothesis, other);
  }

  // ---- The report ----

  datatype Report = Report(der: real, miss: real, falseAlarm: real, confusion: real, referenceTime: real)

  /** The greatest correctly mapped time over all injective mappings. */
  ghost predicate IsGreatestAgreement(reference: seq<Segment>, hypothesis: seq<Segment>, v: real) {
    exists m: map<Label, Label> :: IsOptimal(reference, hypothesis, m) && Agreement(reference, hypothesis, m) == v
  }

  /** What a report must say. The mapping enters only through the greatest agreement, so that
      tied mappings give the same report. */
  ghost predicate IsReport(reference: seq<Segment>, hypothesis: seq<Segment>, r: Report) {
    r.referenceTime == Time(ReferenceCount(reference), reference, hypothesis) != 0.0 &&
    r.miss == Time(MissCount(reference, hypothesis), reference, hypothesis) &&
    r.falseAlarm == Time(FalseAlarmCount(reference, hypothesis), reference, hypothesis) &&
    IsGreatestAgreement(reference, hypothesis, Time(AnsweredCount(reference, hypothesis), reference,
                                                    hypothesis) - r.confusion) &&
    r.der == (r.miss + r.falseAlarm + r.confusion) / r.referenceTime
  }

  lemma GreatestAgreementIsUnique(reference: seq<Segment>, hypothesis: seq<Segment>, v: real, w: real)
    requires IsGreatestAgreement(reference, hypothesis, v) && IsGreatestAgreement(reference, hypothesis, w)
    ensures v == w
  {
    var m :| IsOptimal(reference, hypothesis, m) && Agreement(reference, hypothesis, m) == v;
    var n :| IsOptimal(reference, hypothesis, n) && Agreement(reference, hypothesis, n) == w;
    assert v <= w && w <= v;
  }

  lemma ReportIsUnique(reference: seq<Segment>, hypothesis: seq<Segment>, r: Report, q: Report)
    requires IsReport(reference, hypothesis, r) && IsReport(reference, hypothesis, q)
    ensures r == q
  {
    var answered := Time(AnsweredCount(reference, hypothesis), reference, hypothesis);
    GreatestAgreementIsUnique(reference, hypothesis, answered - r.confusion, answered - q.confusion);
  }

  /** The inner loop: one duration for every reference speaker that is not matched. */
  method ConfusedTime(rs: set<Label>, hs: set<Label>, mapping: map<Label, Option<Label>>, duration: real)
      returns (confusion: real)
    ensures confusion == |Unmatched(rs, hs, Mapped(mapping))| as real * duration
  {
    confusion := 0.0;
    var rest := rs;
    ghost var m := Mapped(mapping);
    while rest != {}
      invariant rest <= rs
      invariant confusion == |Unmatched(rs - rest, hs, m)| as real * duration
    {
      var speaker :| speaker in rest;
      ghost var done := rs - rest;
      rest := rest - {speaker};
      assert rs - rest == done + {speaker};
      UnmatchedGrows(done, hs, m, speaker);
      if exists h | h in hs :: h in mapping && mapping[h] == Some(speaker) {
        var h :| h in hs && h in mapping && mapping[h] == Some(speaker);
        assert h in m && m[h] == speaker;
        continue;
      }
      confusion := confusion + duration;
    }
    assert rs - rest == rs;
  }

  lemma UnmatchedGrows(done: set<Label>, hs: set<Label>, m: map<Label, Label>, speaker: Label)
    requires speaker !in done
    ensures |Unmatched(done + {speaker}, hs, m)| ==
            |Unmatched(done, hs, m)| + if exists h :: h in hs && h in m && m[h] == speaker then 0 else 1
  {
    var matched := exists h :: h in hs && h in m && m[h] == speaker;
    assert Unmatched(done + {speaker}, hs, m) == Unmatched(done, hs, m) + if matched then {} else {speaker};
  }

  /** What one elementary interval adds to the four totals. */
  method ElementaryErrors(rs: set<Label>, hs: set<Label>, mapping: map<Label, Option<Label>>, duration: real)
    returns (spoken: real, miss: real, falseAlarm: real, confusion: real)
    ensures spoken == |rs| as real * duration
    ensures miss == MissOf(rs, hs) * duration
    ensures falseAlarm == FalseAlarmOf(rs, hs) * duration
    ensures confusion == ConfusionOf(rs, hs, Mapped(mapping)) * duration
  {
    spoken, miss, falseAlarm, confusion := |rs| as real * duration, 0.0, 0.0, 0.0;
    if rs == {} {
      falseAlarm := |hs| as real * duration;
      assert Unmatched(rs, hs, Mapped(mapping)) == {};
      return;
    }
    if hs == {} {
      miss := |rs| as real * duration;
      return;
    }
    confusion := ConfusedTime(rs, hs, mapping, duration);
    falseAlarm := (if |hs| > |rs| then |hs| - |rs| else 0) as real * duration;
  }

  /** The four totals, accumulated over the first `n` boundaries. */
  ghost predicate TotalsAt(reference: seq<Segment>, hypothesis: seq<Segment>, m: map<Label, Label>, b: seq<real>,
                           n: nat,
                           referenceTime: real, miss: real, falseAlarm: real, confusion: real)
    requires n <= |b|
  {
    referenceTime == Sampled(ReferenceCount(reference), b, n) &&
    miss == Sampled(MissCount(reference, hypothesis), b, n) &&
    falseAlarm == Sampled(FalseAlarmCount(reference, hypothesis), b, n) &&
    confusion == Sampled(ConfusionCount(reference, hypothesis, m), b, n)
  }

  lemma TotalsStep(reference: seq<Segment>, hypothesis: seq<Segment>, m: map<Label, Label>, b: seq<real>, i: nat,
                   midpoint: real, duration: real, referenceTime: real, miss: real, falseAlarm: real, confusion: real)
    requires 1 <= i < |b| && midpoint == Midpoint(b[i - 1], b[i]) && duration == b[i] - b[i - 1]
    requires TotalsAt(reference, hypothesis, m, b, i, referenceTime, miss, falseAlarm, confusion)
    ensures var rs, hs := ActiveSpeakers(reference, midpoint), ActiveSpeakers(hypothesis, midpoint);
            TotalsAt(reference, hypothesis, m, b, i + 1, referenceTime + |rs| as real * duration,
                     miss + MissOf(rs, hs) * duration,
                     falseAlarm + FalseAlarmOf(rs, hs) * duration, confusion + ConfusionOf(rs, hs, m) * duration)
  {
    var rs, hs := ActiveSpeakers(reference, midpoint), ActiveSpeakers(hypothesis, midpoint);
    SampledStep(ReferenceCount(reference), b, i, midpoint, |rs| as real, duration);
    SampledStep(MissCount(reference, hypothesis), b, i, midpoint, MissOf(rs, hs), duration);
    SampledStep(FalseAlarmCount(reference, hypothesis), b, i, midpoint, FalseAlarmOf(rs, hs), duration);
    SampledStep(ConfusionCount(reference, hypothesis, m), b, i, midpoint, ConfusionOf(rs, hs, m), duration);
  }

  lemma TotalsAreIntegrals(reference: seq<Segment>, hypothesis: seq<Segment>, m: map<Label, Label>, b: seq<real>,
                           referenceTime: real, miss: real, falseAlarm: real, confusion: real)
    requires TotalsAt(reference, hypothesis, m, b, |b|, referenceTime, miss, falseAlarm, confusion)
    ensures referenceTime == Integral(ReferenceCount(reference), b)
    ensures miss == Integral(MissCount(reference, hypothesis), b)
    ensures falseAlarm == Integral(FalseAlarmCount(reference, hypothesis), b)
    ensures confusion == Integral(ConfusionCount(reference, hypothesis, m), b)
  {
    SweepEnds(ReferenceCount(reference), b);
    SweepEnds(MissCount(reference, hypothesis), b);
    SweepEnds(FalseAlarmCount(reference, hypothesis), b);
    SweepEnds(ConfusionCount(reference, hypothesis, m), b);
  }

  lemma TotalsBegin(reference: seq<Segment>, hypothesis: seq<Segment>, m: map<Label, Label>, b: seq<real>)
    requires |b| >= 1
    ensures TotalsAt(reference, hypothesis, m, b, 1, 0.0, 0.0, 0.0, 0.0)
  {
  }

  method Sweep(reference: seq<Segment>, hypothesis: seq<Segment>, mapping: map<Label, Option<Label>>, b: seq<real>)
    returns (referenceTime: real, miss: real, falseAlarm: real, confusion: real)
    requires |b| >= 1
    ensures referenceTime == Integral(ReferenceCount(reference), b)
    ensures miss == Integral(MissCount(reference, hypothesis), b)
    ensures falseAlarm == Integral(FalseAlarmCount(reference, hypothesis), b)
    ensures confusion == Integral(ConfusionCount(reference, hypothesis, Mapped(mapping)), b)
  {
    referenceTime, miss, falseAlarm, confusion := 0.0, 0.0, 0.0, 0.0;
    TotalsBegin(reference, hypothesis, Mapped(mapping), b);
    for i := 1 to |b|
      invariant TotalsAt(reference, hypothesis, Mapped(mapping), b, i, referenceTime, miss, falseAlarm, confusion)
    {
      var duration := b[i] - b[i - 1];
      var midpoint := b[i - 1] + duration / 2.0;
      TotalsStep(reference, hypothesis, Mapped(mapping), b, i, midpoint, duration, referenceTime, miss, falseAlarm,
                 confusion);
      var spoken, missed, alarmed, confused :=
        ElementaryErrors(ActiveSpeakers(reference, midpoint), ActiveSpeakers(hypothesis, midpoint), mapping, duration);
      referenceTime, miss, falseAlarm, confusion :=
        referenceTime + spoken, miss + missed, falseAlarm + alarmed, confusion + confused;
    }
    TotalsAreIntegrals(reference, hypothesis, Mapped(mapping), b, referenceTime, miss, falseAlarm, confusion);
  }

  /** Why there is no report, if there is none. */
  ghost function FailureOf(reference: seq<Segment>, hypothesis: seq<Segment>): Option<Error> {
    if |Grid(reference, hypothesis)| < 2 then Some(NoSpeechInterval)
    else if !WithinLabelLimit(reference, hypothesis) then Some(TooManyLabels)
    else if Time(ReferenceCount(reference), reference, hypothesis) == 0.0 then Some(NoReferenceSpeech)
    else None
  }

  method DiarizationErrorRate(reference: seq<Segment>, hypothesis: seq<Segment>) returns (result: Result<Report, Error>)
    ensures match FailureOf(reference, hypothesis)
            case Some(failure) => result == Err(failure)
            case None => result.Ok? && IsReport(reference, hypothesis, result.value)
  {
    var b := Grid(reference, hypothesis);
    if |b| < 2 {
      return Err(NoSpeechInterval);
    }
    var found := OptimalSpeakerMapping(reference, hypothesis, b);
    if found.Err? {
      return Err(found.error);
    }
    var mapping := found.value;
    ghost var m := Mapped(mapping);
    var referenceTime, miss, falseAlarm, confusion := Sweep(reference, hypothesis, mapping, b);
    if referenceTime == 0.0 {
      return Err(NoReferenceSpeech);
    }
    ConfusionIsUnmappedTime(reference, hypothesis, m);
    result := Ok(Report((miss + falseAlarm + confusion) / referenceTime, miss, falseAlarm, confusion, referenceTime));
  }

  // ---- Exactness of the report ----

  /** Reference time is missed, confused or correctly mapped, and nothing else. */
  lemma ReferenceTimeIsConserved(reference: seq<Segment>, hypothesis: seq<Segment>, r: Report, m: map<Label, Label>)
    requires IsReport(reference, hypothesis, r) && IsOptimal(reference, hypothesis, m)
    ensures r.referenceTime == r.miss + r.confusion + Agreement(reference, hypothesis, m)
  {
    MissedOrAnswered(reference, hypothesis);
    var answered := Time(AnsweredCount(reference, hypothesis), reference, hypothesis);
    GreatestAgreementIsUnique(reference, hypothesis, answered - r.confusion, Agreement(reference, hypothesis, m));
  }

  lemma MissedOrAnswered(reference: seq<Segment>, hypothesis: seq<Segment>)
    ensures Time(ReferenceCount(reference), reference, hypothesis) ==
            Time(MissCount(reference, hypothesis), reference, hypothesis) +
              Time(AnsweredCount(reference, hypothesis), reference, hypothesis)
  {
    IntegralAdds(MissCount(reference, hypothesis), AnsweredCount(reference, hypothesis), ReferenceCount(reference),
                 Grid(reference, hypothesis));
  }

  function SegmentsOf(who: Label, segments: seq<Segment>): seq<Segment> {
    if segments == [] then []
    else (if segments[0].speaker == who then [segments[0]] else []) + SegmentsOf(who, segments[1..])
  }

  lemma {:induction false} SegmentsOfMembers(who: Label, segments: seq<Segment>, s: Segment)
    ensures s in SegmentsOf(who, segments) <==> s in segments && s.speaker == who
  {
    if segments == [] {
    } else {
      assert segments == [segments[0]] + segments[1..];
      SegmentsOfMembers(who, segments[1..], s);
    }
  }

  function SumOfUnions(labels: seq<Label>, segments: seq<Segment>): real {
    if labels == [] then 0.0
    else SumOfUnions(labels[..|labels| - 1], segments) + UnionLength(SegmentsOf(labels[|labels| - 1], segments))
  }

  function Among(labels: seq<Label>, active: set<Label>): set<Label> {
    set l | l in labels && l in active
  }

  ghost function CountAmong(labels: seq<Label>, segments: seq<Segment>): real -> real {
    t => |Among(labels, ActiveSpeakers(segments, t))| as real
  }

  lemma CountAmongSnoc(labels: seq<Label>, last: Label, active: set<Label>)
    requires last !in labels
    ensures |Among(labels + [last], active)| == |Among(labels, active)| + if last in active then 1 else 0
  {
    assert Among(labels + [last], active) == Among(labels, active) + if last in active then {last} else {};
  }

  lemma OwnEndpoints(own: seq<Segment>, segments: seq<Segment>, last: Label)
    requires own == SegmentsOf(last, segments) && WellTimed(segments)
    ensures WellTimed(own) && (forall x :: Endpoint(own, x) ==> Endpoint(segments, x))
    ensures forall t :: last in ActiveSpeakers(segments, t) <==> Covered(own, t)
  {
    forall s
      ensures s in own <==> s in segments && s.speaker == last
    {
      SegmentsOfMembers(last, segments, s);
    }
  }

  lemma OneMoreLabel(init: seq<Label>, last: Label, segments: seq<Segment>, own: seq<Segment>, b: seq<real>)
    requires last !in init && Increasing(b)
    requires forall t :: last in ActiveSpeakers(segments, t) <==> Covered(own, t)
    ensures Integral(CountAmong(init + [last], segments), b) == Integral(CountAmong(init, segments), b) +
            Integral(Occupied(own), b)
  {
    forall t
      ensures CountAmong(init + [last], segments)(t) == CountAmong(init, segments)(t) + Occupied(own)(t)
    {
      CountAmongSnoc(init, last, ActiveSpeakers(segments, t));
    }
    IntegralAdds(CountAmong(init, segments), Occupied(own), CountAmong(init + [last], segments), b);
  }

  lemma {:induction false} CountAmongIsUnions(labels: seq<Label>, segments: seq<Segment>, b: seq<real>)
    requires Distinct(labels) && WellTimed(segments)
    requires Increasing(b) && forall x :: Endpoint(segments, x) ==> x in b
    ensures Integral(CountAmong(labels, segments), b) == SumOfUnions(labels, segments)
  {
    if labels == [] {
      forall t
        ensures CountAmong(labels, segments)(t) == 0.0
      {
        assert Among(labels, ActiveSpeakers(segments, t)) == {};
      }
      IntegralZero(CountAmong(labels, segments), b);
    } else {
      var init, last := labels[..|labels| - 1], labels[|labels| - 1];
      var own := SegmentsOf(last, segments);
      CountAmongIsUnions(init, segments, b);
      OwnEndpoints(own, segments, last);
      UnionIsSampled(own, b);
      OneMoreLabel(init, last, segments, own, b);
      assert labels == init + [last];
    }
  }

  /** Reference time is, label by label, the length of the union of the label's segments. */
  lemma ReferenceTimeIsExact(reference: seq<Segment>, hypothesis: seq<Segment>, labels: seq<Label>)
    requires WellTimed(reference) && Distinct(labels) && forall l :: l in labels <==> l in Speakers(reference)
    ensures Time(ReferenceCount(reference), reference, hypothesis) == SumOfUnions(labels, reference)
  {
    GridHasEndpoints(reference, hypothesis);
    CountAmongIsUnions(labels, reference, Grid(reference, hypothesis));
    forall t
      ensures ReferenceCount(reference)(t) == CountAmong(labels, reference)(t)
    {
      assert Among(labels, ActiveSpeakers(reference, t)) == ActiveSpeakers(reference, t);
    }
    IntegralEqual(ReferenceCount(reference), CountAmong(labels, reference), Grid(reference, hypothesis));
  }

  lemma GridHasEndpoints(reference: seq<Segment>, hypothesis: seq<Segment>)
    ensures forall x :: x in Grid(reference, hypothesis) <==> Endpoint(reference, x) || Endpoint(hypothesis, x)
  {
    forall x
      ensures Endpoint(reference + hypothesis, x) <==> Endpoint(reference, x) || Endpoint(hypothesis, x)
    {
    }
  }

  // ---- Invariance ----

  lemma SameGrid(reference: seq<Segment>, hypothesis: seq<Segment>, reference': seq<Segment>, hypothesis': seq<Segment>)
    requires forall x :: Endpoint(reference, x) <==> Endpoint(reference', x)
    requires forall x :: Endpoint(hypothesis, x) <==> Endpoint(hypothesis', x)
    ensures Grid(reference, hypothesis) == Grid(reference', hypothesis')
  {
    GridHasEndpoints(reference, hypothesis);
    GridHasEndpoints(reference', hypothesis');
    IncreasingIsDetermined(Grid(reference, hypothesis), Grid(reference', hypothesis'));
  }

  /** A report depends on the grid, the numbers of active speakers and the greatest agreement. */
  lemma SameReport(reference: seq<Segment>, hypothesis: seq<Segment>, reference': seq<Segment>,
                   hypothesis': seq<Segment>, r: Report)
    requires IsReport(reference, hypothesis, r)
    requires Grid(reference, hypothesis) == Grid(reference', hypothesis')
    requires forall t :: |ActiveSpeakers(reference, t)| == |ActiveSpeakers(reference', t)|
    requires forall t :: |ActiveSpeakers(hypothesis, t)| == |ActiveSpeakers(hypothesis', t)|
    requires forall v :: IsGreatestAgreement(reference, hypothesis, v) ==>
               IsGreatestAgreement(reference', hypothesis', v)
    ensures IsReport(reference', hypothesis', r)
  {
    var b := Grid(reference, hypothesis);
    SameTimes(reference, hypothesis, reference', hypothesis', b);
  }

  lemma SameTimes(reference: seq<Segment>, hypothesis: seq<Segment>, reference': seq<Segment>,
                  hypothesis': seq<Segment>, b: seq<real>)
    requires Increasing(b)
    requires forall t :: |ActiveSpeakers(reference, t)| == |ActiveSpeakers(reference', t)|
    requires forall t :: |ActiveSpeakers(hypothesis, t)| == |ActiveSpeakers(hypothesis', t)|
    ensures Integral(ReferenceCount(reference), b) == Integral(ReferenceCount(reference'), b)
    ensures Integral(MissCount(reference, hypothesis), b) == Integral(MissCount(reference', hypothesis'), b)
    ensures Integral(AnsweredCount(reference, hypothesis), b) == Integral(AnsweredCount(reference', hypothesis'), b)
    ensures Integral(FalseAlarmCount(reference, hypothesis), b) == Integral(FalseAlarmCount(reference', hypothesis'), b)
  {
    forall t
      ensures ReferenceCount(reference)(t) == ReferenceCount(reference')(t)
      ensures MissCount(reference, hypothesis)(t) == MissCount(reference', hypothesis')(t)
      ensures AnsweredCount(reference, hypothesis)(t) == AnsweredCount(reference', hypothesis')(t)
      ensures FalseAlarmCount(reference, hypothesis)(t) == FalseAlarmCount(reference', hypothesis')(t)
    {
      SameCounts(ActiveSpeakers(reference, t), ActiveSpeakers(hypothesis, t), ActiveSpeakers(reference', t),
                 ActiveSpeakers(hypothesis', t));
    }
    IntegralEqual(ReferenceCount(reference), ReferenceCount(reference'), b);
    IntegralEqual(MissCount(reference, hypothesis), MissCount(reference', hypothesis'), b);
    IntegralEqual(AnsweredCount(reference, hypothesis), AnsweredCount(reference', hypothesis'), b);
    IntegralEqual(FalseAlarmCount(reference, hypothesis), FalseAlarmCount(reference', hypothesis'), b);
  }

  lemma SameCounts(rs: set<Label>, hs: set<Label>, rs': set<Label>, hs': set<Label>)
    requires |rs| == |rs'| && |hs| == |hs'|
    ensures MissOf(rs, hs) == MissOf(rs', hs') && AnsweredOf(rs, hs) == AnsweredOf(rs', hs') &&
            FalseAlarmOf(rs, hs) == FalseAlarmOf(rs', hs')
  {
    assert hs == {} <==> hs' == {};
  }

  /** The order of the segments, and repeated segments, do not matter. */
  lemma ReorderingKeepsReport(reference: seq<Segment>, hypothesis: seq<Segment>, reference': seq<Segment>,
                              hypothesis': seq<Segment>, r: Report)
    requires IsReport(reference, hypothesis, r)
    requires forall s :: s in reference <==> s in reference'
    requires forall s :: s in hypothesis <==> s in hypothesis'
    ensures IsReport(reference', hypothesis', r)
  {
    SameGrid(reference, hypothesis, reference', hypothesis');
    forall t
      ensures ActiveSpeakers(reference, t) == ActiveSpeakers(reference', t)
      ensures ActiveSpeakers(hypothesis, t) == ActiveSpeakers(hypothesis', t)
    {
    }
    forall m: map<Label, Label>
      ensures Agreement(reference, hypothesis, m) == Agreement(reference', hypothesis', m)
    {
      IntegralEqual(MatchedCount(reference, hypothesis, m), MatchedCount(reference', hypothesis', m),
                    Grid(reference, hypothesis));
    }
    forall v | IsGreatestAgreement(reference, hypothesis, v)
      ensures IsGreatestAgreement(reference', hypothesis', v)
    {
      var m :| IsOptimal(reference, hypothesis, m) && Agreement(reference, hypothesis, m) == v;
      assert IsOptimal(reference', hypothesis', m);
    }
    SameReport(reference, hypothesis, reference', hypothesis', r);
  }

  /** The failures depend on the grid and the numbers of labels and of active reference speakers. */
  lemma SameFailure(reference: seq<Segment>, hypothesis: seq<Segment>,
                    reference': seq<Segment>, hypothesis': seq<Segment>)
    requires Grid(reference, hypothesis) == Grid(reference', hypothesis')
    requires |Speakers(reference)| == |Speakers(reference')| && |Speakers(hypothesis)| == |Speakers(hypothesis')|
    requires forall t :: |ActiveSpeakers(reference, t)| == |ActiveSpeakers(reference', t)|
    requires forall t :: |ActiveSpeakers(hypothesis, t)| == |ActiveSpeakers(hypothesis', t)|
    ensures FailureOf(reference, hypothesis) == FailureOf(reference', hypothesis')
  {
    SameTimes(reference, hypothesis, reference', hypothesis', Grid(reference, hypothesis));
  }

  lemma SameSpeakers(segments: seq<Segment>, other: seq<Segment>)
    requires forall s :: s in segments <==> s in other
    ensures Speakers(segments) == Speakers(other)
    ensures forall t :: ActiveSpeakers(segments, t) == ActiveSpeakers(other, t)
    ensures forall x :: Endpoint(segments, x) <==> Endpoint(other, x)
  {
  }

  lemma ReorderingKeepsFailure(reference: seq<Segment>, hypothesis: seq<Segment>,
                               reference': seq<Segment>, hypothesis': seq<Segment>)
    requires forall s :: s in reference <==> s in reference'
    requires forall s :: s in hypothesis <==> s in hypothesis'
    ensures FailureOf(reference, hypothesis) == FailureOf(reference', hypothesis')
  {
    SameSpeakers(reference, reference');
    SameSpeakers(hypothesis, hypothesis');
    SameGrid(reference, hypothesis, reference', hypothesis');
    SameFailure(reference, hypothesis, reference', hypothesis');
  }

  // ---- Renaming ----

  function Rename(segments: seq<Segment>, f: map<Label, Label>): (renamed: seq<Segment>)
    requires forall s :: s in segments ==> s.speaker in f
    ensures |renamed| == |segments|
    ensures forall i :: 0 <= i < |segments| ==> renamed[i] == segments[i].(speaker := f[segments[i].speaker])
  {
    seq(|segments|, i requires 0 <= i < |segments| => segments[i].(speaker := f[segments[i].speaker]))
  }

  lemma RenamedActive(segments: seq<Segment>, f: map<Label, Label>, t: real)
    requires Injective(f) && forall s :: s in segments ==> s.speaker in f
    ensures ActiveSpeakers(Rename(segments, f), t) == set l | l in ActiveSpeakers(segments, t) :: f[l]
    ensures |ActiveSpeakers(Rename(segments, f), t)| == |ActiveSpeakers(segments, t)|
  {
    var renamed := Rename(segments, f);
    var image := set l | l in ActiveSpeakers(segments, t) :: f[l];
    forall x | x in ActiveSpeakers(renamed, t)
      ensures x in image
    {
      var q :| q in renamed && Covers(q, t) && q.speaker == x;
      var i :| 0 <= i < |renamed| && renamed[i] == q;
      assert segments[i] in segments && segments[i].speaker in ActiveSpeakers(segments, t);
    }
    forall x | x in image
      ensures x in ActiveSpeakers(renamed, t)
    {
      var l :| l in ActiveSpeakers(segments, t) && f[l] == x;
      var s :| s in segments && Covers(s, t) && s.speaker == l;
      var i :| 0 <= i < |segments| && segments[i] == s;
      assert renamed[i] in renamed && Covers(renamed[i], t);
    }
    ImageSize(ActiveSpeakers(segments, t), f);
  }

  lemma RenamedGrid(reference: seq<Segment>, hypothesis: seq<Segment>, f: map<Label, Label>)
    requires forall s :: s in hypothesis ==> s.speaker in f
    ensures Grid(reference, Rename(hypothesis, f)) == Grid(reference, hypothesis)
  {
    var renamed := Rename(hypothesis, f);
    forall x
      ensures Endpoint(hypothesis, x) <==> Endpoint(renamed, x)
    {
      if Endpoint(hypothesis, x) {
        var s :| s in hypothesis && (x == s.start || x == s.end);
        var i :| 0 <= i < |hypothesis| && hypothesis[i] == s;
        assert renamed[i] in renamed;
      }
      if Endpoint(renamed, x) {
        var s :| s in renamed && (x == s.start || x == s.end);
        var i :| 0 <= i < |renamed| && renamed[i] == s;
        assert hypothesis[i] in hypothesis;
      }
    }
    SameGrid(reference, hypothesis, reference, renamed);
  }

  function After(m: map<Label, Label>, f: map<Label, Label>): map<Label, Label> {
    map h | h in f && f[h] in m :: m[f[h]]
  }

  lemma HitsAfter(rs: set<Label>, hs: set<Label>, m: map<Label, Label>, f: map<Label, Label>)
    requires Injective(f) && Injective(m) && forall h :: h in hs ==> h in f
    ensures |Hits(rs, set h | h in hs :: f[h], m)| == |Hits(rs, hs, After(m, f))|
  {
    var hits := Hits(rs, hs, After(m, f));
    ImageSize(hits, f);
    assert Hits(rs, set h | h in hs :: f[h], m) == set h | h in hits :: f[h];
  }

  lemma RenamedAgreement(reference: seq<Segment>, hypothesis: seq<Segment>, f: map<Label, Label>, m: map<Label, Label>)
    requires Injective(f) && Injective(m) && forall s :: s in hypothesis ==> s.speaker in f
    ensures Injective(After(m, f))
    ensures Agreement(reference, Rename(hypothesis, f), m) == Agreement(reference, hypothesis, After(m, f))
  {
    RenamedGrid(reference, hypothesis, f);
    forall t
      ensures MatchedCount(reference, Rename(hypothesis, f), m)(t) ==
              MatchedCount(reference, hypothesis, After(m, f))(t)
    {
      RenamedActive(hypothesis, f, t);
      HitsAfter(ActiveSpeakers(reference, t), ActiveSpeakers(hypothesis, t), m, f);
    }
    IntegralEqual(MatchedCount(reference, Rename(hypothesis, f), m), MatchedCount(reference, hypothesis, After(m, f)),
                  Grid(reference, hypothesis));
  }

  ghost function Inverse(f: map<Label, Label>): (g: map<Label, Label>)
    requires Injective(f)
    ensures Injective(g)
    ensures forall l :: l in f ==> f[l] in g && g[f[l]] == l
  {
    assert forall l :: l in f ==> f[l] in f.Values;
    map x | x in f.Values :: var l :| l in f && f[l] == x; l
  }

  /** Renaming back restores the segments. */
  lemma RenameBack(segments: seq<Segment>, f: map<Label, Label>)
    requires Injective(f) && forall s :: s in segments ==> s.speaker in f
    ensures forall s :: s in Rename(segments, f) ==> s.speaker in Inverse(f)
    ensures Rename(Rename(segments, f), Inverse(f)) == segments
  {
    var renamed := Rename(segments, f);
    forall s | s in renamed
      ensures s.speaker in Inverse(f)
    {
      var i :| 0 <= i < |renamed| && renamed[i] == s;
      assert segments[i] in segments;
    }
    forall i | 0 <= i < |segments|
      ensures Rename(renamed, Inverse(f))[i] == segments[i]
    {
      assert segments[i] in segments;
    }
  }

  /** Main result: renaming the hypothesis speakers one to one does not change the report. */
  lemma RenamingKeepsReport(reference: seq<Segment>, hypothesis: seq<Segment>, f: map<Label, Label>, r: Report)
    requires Injective(f) && forall s :: s in hypothesis ==> s.speaker in f
    requires IsReport(reference, hypothesis, r)
    ensures IsReport(reference, Rename(hypothesis, f), r)
  {
    var renamed, g := Rename(hypothesis, f), Inverse(f);
    RenamedGrid(reference, hypothesis, f);
    RenameBack(hypothesis, f);
    forall t
      ensures |ActiveSpeakers(hypothesis, t)| == |ActiveSpeakers(renamed, t)|
    {
      RenamedActive(hypothesis, f, t);
    }
    forall v | IsGreatestAgreement(reference, hypothesis, v)
      ensures IsGreatestAgreement(reference, renamed, v)
    {
      var m :| IsOptimal(reference, hypothesis, m) && Agreement(reference, hypothesis, m) == v;
      RenamedAgreement(reference, renamed, g, m);
      forall other: map<Label, Label> | Injective(other)
        ensures Agreement(reference, renamed, other) <= v
      {
        RenamedAgreement(reference, hypothesis, f, other);
      }
      assert IsOptimal(reference, renamed, After(m, g));
    }
    SameReport(reference, hypothesis, reference, renamed, r);
  }

  lemma RenamedSpeakers(segments: seq<Segment>, f: map<Label, Label>)
    requires Injective(f) && forall s :: s in segments ==> s.speaker in f
    ensures |Speakers(Rename(segments, f))| == |Speakers(segments)|
  {
    var renamed, image := Rename(segments, f), set l | l in Speakers(segments) :: f[l];
    forall x | x in image ensures x in Speakers(renamed) {
      var l :| l in Speakers(segments) && f[l] == x;
      var i :| 0 <= i < |segments| && segments[i].speaker == l;
      assert renamed[i] in renamed;
    }
    forall x | x in Speakers(renamed) ensures x in image {
      var i :| 0 <= i < |renamed| && renamed[i].speaker == x;
      assert segments[i] in segments;
    }
    assert Speakers(renamed) == image;
    ImageSize(Speakers(segments), f);
  }

  /** Nor does it turn a report into a failure, or one failure into another. */
  lemma RenamingKeepsFailure(reference: seq<Segment>, hypothesis: seq<Segment>, f: map<Label, Label>)
    requires Injective(f) && forall s :: s in hypothesis ==> s.speaker in f
    ensures FailureOf(reference, Rename(hypothesis, f)) == FailureOf(reference, hypothesis)
  {
    RenamedGrid(reference, hypothesis, f);
    RenamedSpeakers(hypothesis, f);
    forall t
      ensures |ActiveSpeakers(hypothesis, t)| == |ActiveSpeakers(Rename(hypothesis, f), t)|
    {
      RenamedActive(hypothesis, f, t);
    }
    SameFailure(reference, hypothesis, reference, Rename(hypothesis, f));
  }

  lemma AgreementBound(reference: seq<Segment>, hypothesis: seq<Segment>, m: map<Label, Label>)
    requires Injective(m)
    ensures Agreement(reference, hypothesis, m) <= Time(AnsweredCount(reference, hypothesis), reference, hypothesis)
  {
    forall t
      ensures MatchedCount(reference, hypothesis, m)(t) <= AnsweredCount(reference, hypothesis)(t)
    {
      UnmatchedSize(ActiveSpeakers(reference, t), ActiveSpeakers(hypothesis, t), m);
    }
    IntegralMonotone(MatchedCount(reference, hypothesis, m), AnsweredCount(reference, hypothesis),
                     Grid(reference, hypothesis));
  }

  lemma CopyIsMatched(reference: seq<Segment>, f: map<Label, Label>, t: real)
    requires Injective(f) && forall s :: s in reference ==> s.speaker in f
    ensures MatchedCount(reference, Rename(reference, f), Inverse(f))(t) == ReferenceCount(reference)(t)
    ensures FalseAlarmCount(reference, Rename(reference, f))(t) == 0.0
    ensures MissCount(reference, Rename(reference, f))(t) == 0.0
  {
    RenamedActive(reference, f, t);
    var rs, hs := ActiveSpeakers(reference, t), ActiveSpeakers(Rename(reference, f), t);
    assert Hits(rs, hs, Inverse(f)) == hs;
  }

  /** A copy of the reference under other names has no error at all. */
  lemma RelabelledCopyScoresZero(reference: seq<Segment>, f: map<Label, Label>, r: Report)
    requires Injective(f) && forall s :: s in reference ==> s.speaker in f
    requires IsReport(reference, Rename(reference, f), r)
    ensures r.miss == r.falseAlarm == r.confusion == r.der == 0.0
  {
    var copy, g := Rename(reference, f), Inverse(f);
    var b := Grid(reference, copy);
    forall t
      ensures MatchedCount(reference, copy, g)(t) == ReferenceCount(reference)(t)
      ensures FalseAlarmCount(reference, copy)(t) == 0.0 && MissCount(reference, copy)(t) == 0.0
    {
      CopyIsMatched(reference, f, t);
    }
    IntegralZero(FalseAlarmCount(reference, copy), b);
    IntegralZero(MissCount(reference, copy), b);
    IntegralEqual(MatchedCount(reference, copy, g), ReferenceCount(reference), b);
    GreatestAgreementDominates(reference, copy, r, g);
    assert r.miss + r.falseAlarm + r.confusion == 0.0;
    assert 0.0 / r.referenceTime == 0.0;
  }

  /** The report's confusion leaves at least as much mapped time as any mapping. */
  lemma GreatestAgreementDominates(reference: seq<Segment>, hypothesis: seq<Segment>, r: Report, m: map<Label, Label>)
    requires IsReport(reference, hypothesis, r) && Injective(m)
    ensures r.referenceTime >= r.miss + r.confusion + Agreement(reference, hypothesis, m)
    ensures r.confusion >= 0.0
  {
    var best: map<Label, Label> :| IsOptimal(reference, hypothesis, best) &&
      Agreement(reference, hypothesis, best) ==
        Time(AnsweredCount(reference, hypothesis), reference, hypothesis) - r.confusion;
    assert Agreement(reference, hypothesis, m) <= Agreement(reference, hypothesis, best);
    ReferenceTimeIsConserved(reference, hypothesis, r, best);
    AgreementBound(reference, hypothesis, best);
  }

  // ---- Role accuracy ----

  predicate UsesPublicRoles(segments: seq<Segment>) {
    Speakers(segments) <= {OPERATOR, CLIENT}
  }

  method RoleSweep(reference: seq<Segment>, hypothesis: seq<Segment>, b: seq<real>) returns (total: real, correct: real)
    ensures total == Integral(ReferenceCount(reference), b)
    ensures correct == Integral(SharedCount(reference, hypothesis), b)
  {
    total, correct := 0.0, 0.0;
    if b == [] {
      return;
    }
    for i := 1 to |b|
      invariant total == Sampled(ReferenceCount(reference), b, i)
      invariant correct == Sampled(SharedCount(reference, hypothesis), b, i)
    {
      var duration := b[i] - b[i - 1];
      var midpoint := b[i - 1] + duration / 2.0;
      assert midpoint == Midpoint(b[i - 1], b[i]);
      var rs, hs := ActiveSpeakers(reference, midpoint), ActiveSpeakers(hypothesis, midpoint);
      SampledStep(ReferenceCount(reference), b, i, midpoint, |rs| as real, duration);
      SampledStep(SharedCount(reference, hypothesis), b, i, midpoint, |rs * hs| as real, duration);
      total := total + |rs| as real * duration;
      correct := correct + |rs * hs| as real * duration;
    }
    SweepEnds(ReferenceCount(reference), b);
    SweepEnds(SharedCount(reference, hypothesis), b);
  }

  method TimeWeightedRoleAccuracy(reference: seq<Segment>, hypothesis: seq<Segment>)
      returns (result: Result<real, Error>)
    ensures if !UsesPublicRoles(reference) || !UsesPublicRoles(hypothesis) then result == Err(NotPublicRoles)
            else if Time(ReferenceCount(reference), reference, hypothesis) == 0.0 then result == Err(NoReferenceSpeech)
            else result == Ok(RoleAccuracy(reference, hypothesis))
  {
    if !UsesPublicRoles(reference) || !UsesPublicRoles(hypothesis) {
      return Err(NotPublicRoles);
    }
    var b := Grid(reference, hypothesis);
    var total, correct := RoleSweep(reference, hypothesis, b);
    if total == 0.0 {
      return Err(NoReferenceSpeech);
    }
    result := Ok(correct / total);
  }

  ghost function RoleAccuracy(reference: seq<Segment>, hypothesis: seq<Segment>): real
    requires Time(ReferenceCount(reference), reference, hypothesis) != 0.0
  {
    Time(SharedCount(reference, hypothesis), reference, hypothesis) /
    Time(ReferenceCount(reference), reference, hypothesis)
  }

  lemma SharedBound(reference: seq<Segment>, hypothesis: seq<Segment>)
    ensures 0.0 <= Time(SharedCount(reference, hypothesis), reference, hypothesis) <=
            Time(ReferenceCount(reference), reference, hypothesis)
  {
    var b := Grid(reference, hypothesis);
    forall t
      ensures 0.0 <= SharedCount(reference, hypothesis)(t) <= ReferenceCount(reference)(t)
    {
      SubsetSize(ActiveSpeakers(reference, t) * ActiveSpeakers(hypothesis, t), ActiveSpeakers(reference, t));
    }
    IntegralZero(_ => 0.0, b);
    IntegralMonotone(_ => 0.0, SharedCount(reference, hypothesis), b);
    IntegralMonotone(SharedCount(reference, hypothesis), ReferenceCount(reference), b);
  }

  lemma SubsetSize<T>(a: set<T>, b: set<T>)
    requires a <= b
    ensures |a| <= |b| && (|a| == |b| ==> a == b)
  {
    assert b == a + (b - a);
    assert |b| == |a| + |b - a|;
  }

  /** Every reference role is covered by the same hypothesis role at every instant. */
  ghost predicate CoveredThroughout(reference: seq<Segment>, hypothesis: seq<Segment>) {
    forall t :: ActiveSpeakers(reference, t) <= ActiveSpeakers(hypothesis, t)
  }

  lemma RatioBounds(x: real, y: real)
    requires 0.0 <= x <= y && y != 0.0
    ensures 0.0 <= x / y <= 1.0 && (x / y == 1.0 <==> x == y) && (1.0 - x / y) * y == y - x
  {
    assert x / y * y == x;
  }

  /** Accuracy is a share, and it is the whole exactly when every role is covered throughout. */
  lemma AccuracyIsAShare(reference: seq<Segment>, hypothesis: seq<Segment>)
    requires Time(ReferenceCount(reference), reference, hypothesis) != 0.0
    ensures 0.0 <= RoleAccuracy(reference, hypothesis) <= 1.0
    ensures RoleAccuracy(reference, hypothesis) == 1.0 <==> CoveredThroughout(reference, hypothesis)
  {
    var b := Grid(reference, hypothesis);
    SharedBound(reference, hypothesis);
    RatioBounds(Time(SharedCount(reference, hypothesis), reference, hypothesis),
                Time(ReferenceCount(reference), reference, hypothesis));
    if CoveredThroughout(reference, hypothesis) {
      forall t
        ensures SharedCount(reference, hypothesis)(t) == ReferenceCount(reference)(t)
      {
        assert ActiveSpeakers(reference, t) * ActiveSpeakers(hypothesis, t) == ActiveSpeakers(reference, t);
      }
      IntegralEqual(SharedCount(reference, hypothesis), ReferenceCount(reference), b);
    }
    if RoleAccuracy(reference, hypothesis) == 1.0 {
      forall t
        ensures ActiveSpeakers(reference, t) <= ActiveSpeakers(hypothesis, t)
      {
        FullAccuracyCovers(reference, hypothesis, t);
      }
    }
  }

  lemma FullAccuracyCovers(reference: seq<Segment>, hypothesis: seq<Segment>, t: real)
    requires Time(SharedCount(reference, hypothesis), reference, hypothesis) ==
             Time(ReferenceCount(reference), reference, hypothesis)
    ensures ActiveSpeakers(reference, t) <= ActiveSpeakers(hypothesis, t)
  {
    var b := Grid(reference, hypothesis);
    GridHasEndpoints(reference, hypothesis);
    ActiveIsWithin(reference, b, t);
    if Within(b, t) {
      var i := ElementaryInterval(b, t);
      forall x
        ensures SharedCount(reference, hypothesis)(x) <= ReferenceCount(reference)(x)
      {
        SubsetSize(ActiveSpeakers(reference, x) * ActiveSpeakers(hypothesis, x), ActiveSpeakers(reference, x));
      }
      EqualIntegralsAgree(SharedCount(reference, hypothesis), ReferenceCount(reference), b, i);
      var mid := Midpoint(b[i], b[i + 1]);
      SubsetSize(ActiveSpeakers(reference, mid) * ActiveSpeakers(hypothesis, mid), ActiveSpeakers(reference, mid));
      ActiveIsConstant(reference, b, i, t);
      ActiveIsConstant(hypothesis, b, i, t);
    }
  }

  /** Main result: missed and confused time are at most the share that role accuracy leaves,
      because the identity on shared labels is one of the mappings searched. */
  lemma ErrorWithinInaccuracy(reference: seq<Segment>, hypothesis: seq<Segment>, r: Report)
    requires IsReport(reference, hypothesis, r)
    ensures r.miss + r.confusion <= (1.0 - RoleAccuracy(reference, hypothesis)) * r.referenceTime
  {
    var identity := map l | l in Speakers(hypothesis) :: l;
    IdentityAgreement(reference, hypothesis, identity);
    GreatestAgreementDominates(reference, hypothesis, r, identity);
    SharedBound(reference, hypothesis);
    RatioBounds(Time(SharedCount(reference, hypothesis), reference, hypothesis),
                Time(ReferenceCount(reference), reference, hypothesis));
  }

  lemma IdentityAgreement(reference: seq<Segment>, hypothesis: seq<Segment>, identity: map<Label, Label>)
    requires identity == map l | l in Speakers(hypothesis) :: l
    ensures Agreement(reference, hypothesis, identity) ==
            Time(SharedCount(reference, hypothesis), reference, hypothesis)
  {
    forall t
      ensures MatchedCount(reference, hypothesis, identity)(t) == SharedCount(reference, hypothesis)(t)
    {
      assert ActiveSpeakers(hypothesis, t) <= Speakers(hypothesis);
      assert Matched(reference, hypothesis, identity, t) ==
             ActiveSpeakers(reference, t) * ActiveSpeakers(hypothesis, t);
    }
    IntegralEqual(MatchedCount(reference, hypothesis, identity), SharedCount(reference, hypothesis),
                  Grid(reference, hypothesis));
  }
}
