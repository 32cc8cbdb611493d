// What a rolling session gives out: which texts it announces and when, in terms of the texts heard
// alone, for one frame, for the end and for a whole session.

module RollingUpdates {
  import opened Bytes
  import opened Outcomes
  import opened RollingSession

  // ---- The committed text ----

  /** The longest common prefix of the texts number `k - 1` and `k`. */
  function Agreed(texts: seq<Text>, k: nat): Text
    requires 1 <= k < |texts|
  {
    LongestCommonPrefix(texts[k - 1], texts[k])
  }

  ghost predicate NoneLonger(texts: seq<Text>, n: nat, size: nat)
    requires n <= |texts|
  {
    forall k :: 1 <= k < n ==> |Agreed(texts, k)| <= size
  }

  /** The texts number `k - 1` and `k` agree on `t`, and all earlier neighbours on less. */
  ghost predicate IsFirstLongest(texts: seq<Text>, k: nat, t: Text) {
    1 <= k < |texts| && Agreed(texts, k) == t && forall j :: 1 <= j < k ==> |Agreed(texts, j)| < |t|
  }

  lemma AgreedBefore(texts: seq<Text>, n: nat, size: nat, k: nat, t: Text)
    requires n <= |texts|
    ensures NoneLonger(texts[..n], n, size) <==> NoneLonger(texts, n, size)
    ensures IsFirstLongest(texts[..n], k, t) ==> IsFirstLongest(texts, k, t)
  {
    assert forall j :: 1 <= j < n ==> Agreed(texts[..n], j) == Agreed(texts, j);
  }

  /** The committed text is the first of the longest prefixes that two consecutive texts agree on. */
  lemma {:induction false} CommittedIsLongest(texts: seq<Text>)
    ensures NoneLonger(texts, |texts|, |CommittedBy(texts)|)
    ensures CommittedBy(texts) == [] || exists k :: IsFirstLongest(texts, k, CommittedBy(texts))
  {
    if |texts| < 2 {
    } else {
      var n := |texts| - 1;
      var init := texts[..n];
      CommittedIsLongest(init);
      AgreedBefore(texts, n, |CommittedBy(init)|, 0, []);
      LongestGrows(texts, CommittedBy(init));
      if CommittedBy(init) != [] {
        var k :| IsFirstLongest(init, k, CommittedBy(init));
        AgreedBefore(texts, n, 0, k, CommittedBy(init));
      }
    }
  }

  /** One more text replaces the longest prefix only by a longer one. */
  lemma LongestGrows(texts: seq<Text>, before: Text)
    requires |texts| >= 2 && NoneLonger(texts, |texts| - 1, |before|)
    ensures var n := |texts| - 1;
            var after := Commit(before, texts[n - 1], texts[n]);
            NoneLonger(texts, |texts|, |after|) && (after == before || IsFirstLongest(texts, n, after))
  {
    var n := |texts| - 1;
    assert Agreed(texts, n) == LongestCommonPrefix(texts[n - 1], texts[n]);
  }

  // ---- What is due after a chance to transcribe ----

  /** One more text, or none. */
  ghost predicate Grows(before: seq<Text>, after: seq<Text>) {
    after == before || (|after| == |before| + 1 && before <= after && after[|before|] != [])
  }

  /** There is something new to say: the first text, or a longer committed text. */
  ghost predicate HasNews(before: seq<Text>, after: seq<Text>) {
    |after| > |before| && (|after| == 1 || |CommittedBy(after)| > |CommittedBy(before)|)
  }

  /** The news: the first text as it is, later on the committed text. */
  ghost function News(after: seq<Text>): Text
    requires after != []
  {
    if |after| == 1 then after[0] else CommittedBy(after)
  }

  ghost function Due(before: seq<Text>, after: seq<Text>, sequence: nat): seq<Update> {
    if HasNews(before, after) then [Update(AtLeastOne(sequence), News(after), |after| > 1, false)] else []
  }

  lemma ListenGives(h: Hearing, words: Text, encodedBytes: nat, sequence: nat, limits: Limits)
    requires Sound(h, limits)
    ensures var (after, r) := Listen(h, words, encodedBytes, sequence, limits);
            Grows(h.texts, after.texts) &&
            (r.Err? ==> after.texts == h.texts) && (r.Ok? ==> r.value == Due(h.texts, after.texts, sequence))
  {
    if words != [] && encodedBytes <= limits.maxUpdateTextBytes {
      CommittedByMore(h.texts, words);
      PreviousIsLast(h.texts, h.previous, words);
    }
  }

  lemma HearGives(h: Hearing, ring: seq<byte>, sequence: nat, outcome: Transcription, limits: Limits)
    requires Sound(h, limits)
    ensures var (after, r) := Hear(h, ring, sequence, outcome, limits);
            Grows(h.texts, after.texts) &&
            (r.Err? ==> after.texts == h.texts) && (r.Ok? ==> r.value == Due(h.texts, after.texts, sequence))
  {
    if CallIsMade(h, ring, limits) && outcome.Heard? {
      CalledIsSound(h, ring, limits);
      ListenGives(Called(h, ring), outcome.words, outcome.encodedBytes, sequence, limits);
    }
  }

  lemma TranscribeGives(s: Session, sequence: nat, outcome: Transcription, limits: Limits)
    requires Sound(s.hearing, limits)
    ensures var (after, r) := Transcribe(s, sequence, outcome, limits);
            Grows(s.hearing.texts, after.hearing.texts) &&
            (r.Err? ==> after.hearing.texts == s.hearing.texts) &&
            (r.Ok? ==> r.value == Due(s.hearing.texts, after.hearing.texts, sequence))
  {
    HearGives(s.hearing, Ring(s, limits), sequence, outcome, limits);
  }

  lemma ConsumeGives(s: Session, pcm: seq<byte>, sequence: nat, force: bool, outcome: Transcription, limits: Limits)
    requires Sound(s.hearing, limits)
    ensures var (after, r) := Consume(s, pcm, sequence, force, outcome, limits);
            Grows(s.hearing.texts, after.hearing.texts) &&
            (r.Err? ==> after.hearing.texts == s.hearing.texts) &&
            (r.Ok? ==> r.value == Due(s.hearing.texts, after.hearing.texts, sequence))
  {
    var longer := s.(heard := s.heard + pcm);
    TranscribeGives(longer, sequence, outcome, limits);
  }

  /** Main result on frames: a push that succeeds gives exactly what is due, one update for the first
      text or for a longer committed text and otherwise none; one that fails leaves the texts alone. */
  lemma PushGives(s: Session, codec: Codec, limits: Limits, frame: seq<byte>, sequence: nat, input: Input)
    requires Sound(s.hearing, limits)
    ensures var (after, r) := Pushed(s, codec, limits, frame, sequence, input);
            Grows(s.hearing.texts, after.hearing.texts) &&
            (r.Err? ==> after.hearing.texts == s.hearing.texts) &&
            (r.Ok? ==> r.value == Due(s.hearing.texts, after.hearing.texts, sequence))
  {
    var pcm := AudioOf(codec, frame, input);
    var counted := s.(firstFrame := false, lastSequence := sequence, bytesReceived := s.bytesReceived + |frame|);
    if pcm.Some? {
      ConsumeGives(counted, pcm.value, sequence, false, input.outcome, limits);
    }
  }

  // ---- The end ----

  /** The end gives what is due and closes with the text heard last: as a mark on the news when that is
      the news, and as an update of its own otherwise, stable as soon as anything was committed. */
  ghost predicate ClosesWith(updates: seq<Update>, due: seq<Update>, texts: seq<Text>, lastSequence: nat) {
    if texts == [] then updates == []
    else if due != [] && due[0].text == LastText(texts) then updates == [due[0].(final := true)]
    else updates == due + [Update(AtLeastOne(lastSequence), LastText(texts), CommittedBy(texts) != [], true)]
  }

  lemma FinishGives(s: Session, codec: Codec, limits: Limits, input: Input)
    requires Inv(s, limits) && !s.closed
    ensures var (after, r) := Finished(s, codec, limits, input);
            r.Ok? ==>
              Grows(s.hearing.texts, after.hearing.texts) &&
              ClosesWith(r.value, Due(s.hearing.texts, after.hearing.texts, s.lastSequence), after.hearing.texts,
                         s.lastSequence)
  {
    var ended := s.(closed := true);
    var pcm := AudioOf(codec, [], input);
    if input.inTime && pcm.Some? {
      RestGives(ended, pcm.value, input.outcome, limits);
      var texts := ConsumeRest(ended, pcm.value, input.outcome, limits).0.hearing.texts;
      assert texts != [] ==> LastText(texts) in texts;
    }
  }

  lemma RestGives(s: Session, pcm: seq<byte>, outcome: Transcription, limits: Limits)
    requires Inv(s, limits)
    ensures var (after, r) := ConsumeRest(s, pcm, outcome, limits);
            Grows(s.hearing.texts, after.hearing.texts) && after.lastSequence == s.lastSequence &&
            after.hearing.previous == LastText(after.hearing.texts) &&
            after.hearing.committed == CommittedBy(after.hearing.texts) &&
            (forall t <- after.hearing.texts :: t != []) &&
            (r.Ok? ==> r.value == Due(s.hearing.texts, after.hearing.texts, s.lastSequence))
  {
    if pcm == [] && |s.heard| > s.lastRolling {
      TranscribeGives(s, s.lastSequence, outcome, limits);
      TranscribeKeeps(s, s.lastSequence, outcome, limits);
    } else {
      ConsumeGives(s, pcm, s.lastSequence, true, outcome, limits);
      TranscribeKeeps(s.(heard := s.heard + pcm), s.lastSequence, outcome, limits);
    }
  }

  /** Main result on the end: nothing is given exactly when nothing was ever heard; two updates exactly
      when there is news that differs from the last text; and the final one is stable exactly when
      something was committed. */
  lemma FinishGivesExactly(s: Session, codec: Codec, limits: Limits, input: Input)
    requires Inv(s, limits) && !s.closed && Finished(s, codec, limits, input).1.Ok?
    ensures var before := s.hearing.texts;
            var after := Finished(s, codec, limits, input).0.hearing.texts;
            var given := Finished(s, codec, limits, input).1.value;
            (given == [] <==> after == []) &&
            (|given| == 2 <==> HasNews(before, after) && News(after) != LastText(after)) &&
            (|given| == 2 ==> given[0] == Update(AtLeastOne(s.lastSequence), News(after), |after| > 1, false)) &&
            (given != [] ==>
               given[|given| - 1] ==
               Update(AtLeastOne(s.lastSequence), LastText(after), CommittedBy(after) != [], true))
  {
    FinishGives(s, codec, limits, input);
    var after := Finished(s, codec, limits, input).0.hearing.texts;
    if |after| == 1 {
      assert CommittedBy(after) == [];
    }
  }

  // ---- Whole sessions ----

  function TextsOf(updates: seq<Update>): (r: seq<Text>)
    ensures |r| == |updates| && forall i :: 0 <= i < |r| ==> r[i] == updates[i].text
  {
    seq(|updates|, i requires 0 <= i < |updates| => updates[i].text)
  }

  /** The first text, then every committed text that is longer than the one before. */
  ghost function Announced(texts: seq<Text>): seq<Text> {
    if texts == [] then []
    else
      var init := texts[..|texts| - 1];
      Announced(init) + if HasNews(init, texts) then [News(texts)] else []
  }

  lemma NewsIsAnnounced(before: seq<Text>, after: seq<Text>, sequence: nat)
    requires Grows(before, after)
    ensures Announced(after) == Announced(before) + TextsOf(Due(before, after, sequence))
  {
    if |after| > |before| {
      assert after[..|after| - 1] == before;
    } else {
      assert Announced(before) + [] == Announced(before);
    }
  }

  lemma JoinedTexts(a: seq<Update>, b: seq<Update>)
    ensures TextsOf(a + b) == TextsOf(a) + TextsOf(b)
  {
  }

  /** Main result on sessions: the updates of the frames are exactly the first text heard and one for
      every growth of the committed text, in order. */
  lemma {:induction false} EmittedIsAnnounced(codec: Codec, limits: Limits, frames: seq<Frame>)
    requires limits.stepBytes > 0
    ensures TextsOf(Emitted(codec, limits, frames)) == Announced(AfterFrames(codec, limits, frames).hearing.texts)
  {
    if frames == [] {
    } else {
      var f, before := frames[|frames| - 1], frames[..|frames| - 1];
      var s := AfterFrames(codec, limits, before);
      EmittedIsAnnounced(codec, limits, before);
      SessionsStayInBounds(codec, limits, before);
      PushGives(s, codec, limits, f.bytes, f.sequence, f.input);
      var (after, r) := Pushed(s, codec, limits, f.bytes, f.sequence, f.input);
      NewsIsAnnounced(s.hearing.texts, after.hearing.texts, f.sequence);
      JoinedTexts(Emitted(codec, limits, before), Given(r));
      if r.Err? {
        assert TextsOf(Emitted(codec, limits, before)) + [] == TextsOf(Emitted(codec, limits, before));
      }
    }
  }

  // ---- The audio a call is made for ----

  /** A sample is the number in two's complement whose low byte comes first. */
  lemma SampleMeaning(low: byte, high: byte, sample: int)
    requires -0x8000 <= sample < 0x8000
    requires var unsigned := if sample < 0 then sample + 0x1_0000 else sample;
             low == unsigned % 0x100 && high == unsigned / 0x100
    ensures Sample([low, high], 0) == sample
  {
  }

  lemma SampleIn(a: seq<byte>, b: seq<byte>, i: nat)
    ensures i + 1 < |a| ==> Sample(a + b, i) == Sample(a, i)
    ensures i < |b| ==> Sample(a + b, |a| + i) == Sample(b, i)
  {
  }

  /** There is energy when one sample is loud, and the loudness of a sample is its distance from zero. */
  lemma EnergyOfOne(low: byte, high: byte, threshold: nat)
    ensures var sample := Sample([low, high], 0);
            HasEnergy([low, high], threshold) <==> sample >= threshold || sample + threshold <= 0
  {
    assert IsLoud([low, high], 0, threshold) <==> HasEnergy([low, high], threshold);
  }

  lemma EnergyOfConcat(a: seq<byte>, b: seq<byte>, threshold: nat)
    requires |a| % 2 == 0
    ensures HasEnergy(a + b, threshold) <==> HasEnergy(a, threshold) || HasEnergy(b, threshold)
  {
    if i :| 0 <= i < |a + b| && IsLoud(a + b, i, threshold) {
      if i < |a| {
        SampleIn(a, b, i);
        assert IsLoud(a, i, threshold);
      } else {
        SampleIn(a, b, i - |a|);
        assert IsLoud(b, i - |a|, threshold);
      }
    }
    if i :| 0 <= i < |a| && IsLoud(a, i, threshold) {
      SampleIn(a, b, i);
      assert IsLoud(a + b, i, threshold);
    }
    if i :| 0 <= i < |b| && IsLoud(b, i, threshold) {
      SampleIn(a, b, i);
      assert IsLoud(a + b, |a| + i, threshold);
    }
  }

  /** The ring is the end of what was heard, as long as the window allows. */
  lemma WindowIsTheEnd(heard: seq<byte>, window: nat)
    ensures |LastBytes(heard, window)| == if |heard| <= window then |heard| else window
    ensures heard == heard[..|heard| - |LastBytes(heard, window)|] + LastBytes(heard, window)
    ensures Seconds(32_000) == 1.0
  {
  }
}
