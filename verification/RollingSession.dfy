// A rolling streaming session: a bounded ring of decoded audio, transcribed at a fixed cadence
// within a call budget and an audio budget, and the commitment of text that two consecutive
// transcriptions agree on.

module RollingSession {
  import opened Bytes
  import opened Outcomes
  import OggStream

  datatype Codec = PcmS16le | OggOpus

  /** Text as its words: the program splits at white space and joins with single blanks. */
  type Text = seq<string>

  datatype Update = Update(sequence: nat, text: Text, stablePrefix: bool, final: bool)

  datatype Failure = DurationExceeded | SequenceViolation | InvalidFrame | ByteBoundExceeded | DecodeFailed
                   | PartialSample | UpdateTooLong

  /** The outcome of one transcription call; a failed or timed-out call yields nothing. */
  datatype Transcription = Failed | Heard(words: Text, encodedBytes: nat)

  const BYTES_PER_SECOND: nat := 32_000

  function Seconds(bytes: nat): real { bytes as real / BYTES_PER_SECOND as real }

  // ---- Common prefixes ----

  ghost predicate IsLongestCommonPrefix(p: Text, a: Text, b: Text) {
    p <= a && p <= b && (|p| < |a| && |p| < |b| ==> a[|p|] != b[|p|])
  }

  lemma LongestCommonPrefixIsGreatest(p: Text, a: Text, b: Text, q: Text)
    requires IsLongestCommonPrefix(p, a, b) && q <= a && q <= b
    ensures q <= p
  {
  }

  method CommonPrefix(previous: Text, current: Text) returns (prefix: Text)
    ensures IsLongestCommonPrefix(prefix, previous, current)
  {
    prefix := [];
    for i := 0 to if |previous| < |current| then |previous| else |current|
      invariant |prefix| == i && prefix <= previous && prefix <= current
    {
      if previous[i] != current[i] {
        return;
      }
      prefix := prefix + [previous[i]];
    }
  }

  function LongestCommonPrefix(a: Text, b: Text): (p: Text)
    ensures IsLongestCommonPrefix(p, a, b)
  {
    if a == [] || b == [] || a[0] != b[0] then [] else [a[0]] + LongestCommonPrefix(a[1..], b[1..])
  }

  lemma LongestCommonPrefixIsUnique(p: Text, q: Text, a: Text, b: Text)
    requires IsLongestCommonPrefix(p, a, b) && IsLongestCommonPrefix(q, a, b)
    ensures p == q
  {
    LongestCommonPrefixIsGreatest(p, a, b, q);
    LongestCommonPrefixIsGreatest(q, a, b, p);
  }

  // ---- Energy ----

  /** The signed little-endian sample that starts at `i`; a lone last byte is a sample of its own. */
  function Sample(pcm: seq<byte>, i: nat): int
    requires i < |pcm|
  {
    var low: int := pcm[i];
    if i + 1 < |pcm| then
      var high: int := pcm[i + 1];
      if high >= 128 then low + 256 * high - 65536 else low + 256 * high
    else if low >= 128 then low - 256 else low
  }

  predicate IsLoud(pcm: seq<byte>, i: nat, threshold: nat)
    requires i < |pcm|
  {
    i % 2 == 0 && (Sample(pcm, i) >= threshold || -Sample(pcm, i) >= threshold)
  }

  predicate HasEnergy(pcm: seq<byte>, threshold: nat) {
    exists i | 0 <= i < |pcm| :: IsLoud(pcm, i, threshold)
  }

  // ---- The ring ----

  function LastBytes(b: seq<byte>, n: nat): seq<byte> {
    if |b| <= n then b else b[|b| - n..]
  }

  /** Extending a ring that holds the last bytes, and trimming it, again holds the last bytes. */
  lemma RingStep(heard: seq<byte>, pcm: seq<byte>, window: nat)
    ensures LastBytes(LastBytes(heard, window) + pcm, window) == LastBytes(heard + pcm, window)
  {
    var ring := LastBytes(heard, window) + pcm;
    if |heard| > window {
      assert heard + pcm == heard[..|heard| - window] + ring;
    }
  }

  function TotalBytes(chunks: seq<seq<byte>>): nat {
    if chunks == [] then 0 else TotalBytes(chunks[..|chunks| - 1]) + |chunks[|chunks| - 1]|
  }

  datatype Limits = Limits(
    maxFrameBytes: nat, maxSessionBytes: nat, windowBytes: nat, stepBytes: nat,
    maxCalls: nat, maxAudioSeconds: real, energyThreshold: nat, maxUpdateTextBytes: nat)

  // ---- The session as a function of its fields ----

  /** What transcription changes: the budgets used, the text remembered and the text committed, with
      the audio submitted and the texts heard so far. */
  datatype Hearing = Hearing(
    calls: nat, seconds: real, exhausted: bool, previous: Text, committed: Text,
    submitted: seq<seq<byte>>, texts: seq<Text>)

  datatype Session = Session(
    heard: seq<byte>, lastRolling: nat, hearing: Hearing,
    lastSequence: nat, bytesReceived: nat, firstFrame: bool, closed: bool)

  /** What the surroundings contribute to one operation: whether it is within the duration, what the
      decoder returns unless it fails, and the outcome of a transcription call if one is made. */
  datatype Input = Input(inTime: bool, decoded: Option<seq<byte>>, outcome: Transcription)

  const OPENED := Session([], 0, Hearing(0, 0.0, false, [], [], [], []), 0, 0, true, false)

  function AtLeastOne(sequence: nat): nat { if sequence >= 1 then sequence else 1 }

  /** The text committed after two consecutive transcriptions. */
  function Commit(committed: Text, previous: Text, current: Text): Text {
    var stable := LongestCommonPrefix(previous, current);
    if |stable| <= |committed| then committed else stable
  }

  /** What a transcription makes known: the first text as it is, later ones as far as they agree. */
  function Announcement(committed: Text, previous: Text, words: Text, sequence: nat): seq<Update> {
    if words == [] then []
    else if previous == [] then [Update(AtLeastOne(sequence), words, false, false)]
    else
      var stable := LongestCommonPrefix(previous, words);
      if |stable| <= |committed| then [] else [Update(AtLeastOne(sequence), stable, true, false)]
  }

  /** The ring holds audio worth transcribing. */
  predicate Worthwhile(ring: seq<byte>, limits: Limits) {
    ring != [] && HasEnergy(ring, limits.energyThreshold)
  }

  /** One more call for the ring stays within both budgets. */
  predicate Affordable(h: Hearing, ring: seq<byte>, limits: Limits) {
    h.calls < limits.maxCalls && h.seconds + Seconds(|ring|) <= limits.maxAudioSeconds
  }

  /** A text that has been transcribed. */
  function Listen(h: Hearing, words: Text, encodedBytes: nat, sequence: nat, limits: Limits):
        (Hearing, Result<seq<Update>, Failure>) {
    if words == [] then (h, Ok([]))
    else if encodedBytes > limits.maxUpdateTextBytes then (h, Err(UpdateTooLong))
    else
      var committed := if h.previous == [] then h.committed else Commit(h.committed, h.previous, words);
      (h.(previous := words, committed := committed, texts := h.texts + [words]),
       Ok(Announcement(h.committed, h.previous, words, sequence)))
  }

  /** A call is made for the ring. */
  function Called(h: Hearing, ring: seq<byte>): Hearing {
    h.(calls := h.calls + 1, seconds := h.seconds + Seconds(|ring|), submitted := h.submitted + [ring])
  }

  /** At most one transcription call, and only within both budgets. */
  function Hear(h: Hearing, ring: seq<byte>, sequence: nat, outcome: Transcription, limits: Limits):
        (p: (Hearing, Result<seq<Update>, Failure>))
    ensures p.1.Ok? ==> |p.1.value| <= 1 && (p.1.value != [] ==> p.0.previous != [])
  {
    if h.exhausted || !Worthwhile(ring, limits) then (h, Ok([]))
    else if !Affordable(h, ring, limits) then (h.(exhausted := true), Ok([]))
    else
      match outcome
      case Failed => (Called(h, ring), Ok([]))
      case Heard(words, encodedBytes) => Listen(Called(h, ring), words, encodedBytes, sequence, limits)
  }

  function Ring(s: Session, limits: Limits): seq<byte> { LastBytes(s.heard, limits.windowBytes) }

  function Transcribe(s: Session, sequence: nat, outcome: Transcription, limits: Limits):
        (p: (Session, Result<seq<Update>, Failure>))
    ensures p.1.Ok? ==> |p.1.value| <= 1 && (p.1.value != [] ==> p.0.hearing.previous != [])
  {
    var (hearing, r) := Hear(s.hearing, Ring(s, limits), sequence, outcome, limits);
    (s.(lastRolling := |s.heard|, hearing := hearing), r)
  }

  function Consume(s: Session, pcm: seq<byte>, sequence: nat, force: bool, outcome: Transcription, limits: Limits):
        (p: (Session, Result<seq<Update>, Failure>))
    ensures p.1.Ok? ==> |p.1.value| <= 1 && (p.1.value != [] ==> p.0.hearing.previous != [])
  {
    if |pcm| % 2 != 0 then (s, Err(PartialSample))
    else if pcm == [] then (s, Ok([]))
    else
      var longer := s.(heard := s.heard + pcm);
      if !force && |longer.heard| - s.lastRolling < limits.stepBytes then (longer, Ok([]))
      else Transcribe(longer, sequence, outcome, limits)
  }

  predicate FrameIsValid(codec: Codec, frame: seq<byte>, first: bool) {
    frame != [] && match codec
                   case PcmS16le => |frame| % 2 == 0
                   case OggOpus => first ==> OggStream.CAPTURE_PATTERN <= frame
  }

  /** Why a frame is turned away before anything changes. */
  function Refusal(s: Session, codec: Codec, frame: seq<byte>, sequence: nat, inTime: bool): Option<Failure> {
    if !inTime then Some(DurationExceeded)
    else if s.closed || sequence != s.lastSequence + 1 then Some(SequenceViolation)
    else if !FrameIsValid(codec, frame, s.firstFrame) then Some(InvalidFrame)
    else None
  }

  function Pushed(s: Session, codec: Codec, limits: Limits, frame: seq<byte>, sequence: nat, input: Input):
        (Session, Result<seq<Update>, Failure>) {
    var refusal := Refusal(s, codec, frame, sequence, input.inTime);
    if refusal.Some? then (s, Err(refusal.value))
    else
      var counted := s.(firstFrame := false, lastSequence := sequence, bytesReceived := s.bytesReceived + |frame|);
      if |frame| > limits.maxFrameBytes || counted.bytesReceived > limits.maxSessionBytes
      then (counted, Err(ByteBoundExceeded))
      else
        var pcm := if codec.PcmS16le? then Some(frame) else input.decoded;
        if pcm.None? then (counted, Err(DecodeFailed))
        else Consume(counted, pcm.value, sequence, false, input.outcome, limits)
  }

  /** The last text heard closes the stream: its update is marked final, or repeated as final. */
  function WithFinal(updates: seq<Update>, latestText: Text, lastSequence: nat, committed: bool): (r: seq<Update>)
    requires |updates| <= 1 && (updates != [] ==> latestText != [])
    ensures |r| <= 2 && (r == [] <==> latestText == [])
    ensures r != [] ==> r[|r| - 1].final && r[|r| - 1].text == latestText
    ensures |r| == 2 ==> updates == [r[0]] && r[0].text != latestText
  {
    if latestText == [] then updates
    else if updates != [] && updates[0].text == latestText then [updates[0].(final := true)]
    else updates + [Update(AtLeastOne(lastSequence), latestText, committed, true)]
  }

  /** The audio still waiting is transcribed now, whether or not a step is complete. */
  function ConsumeRest(s: Session, pcm: seq<byte>, outcome: Transcription, limits: Limits):
        (p: (Session, Result<seq<Update>, Failure>))
    ensures p.1.Ok? ==> |p.1.value| <= 1 && (p.1.value != [] ==> p.0.hearing.previous != [])
  {
    if pcm == [] && |s.heard| > s.lastRolling then Transcribe(s, s.lastSequence, outcome, limits)
    else Consume(s, pcm, s.lastSequence, true, outcome, limits)
  }

  function Finished(s: Session, codec: Codec, limits: Limits, input: Input): (Session, Result<seq<Update>, Failure>) {
    if s.closed then (s, Ok([]))
    else
      var ended := s.(closed := true);
      if !input.inTime then (ended, Err(DurationExceeded))
      else
        var pcm := if codec.PcmS16le? then Some([]) else input.decoded;
        if pcm.None? then (ended, Err(DecodeFailed))
        else
          var (last, r) := ConsumeRest(ended, pcm.value, input.outcome, limits);
          if r.Err? then (last, r)
          else (last, Ok(WithFinal(r.value, last.hearing.previous, last.lastSequence, last.hearing.committed != [])))
  }

  // ---- The session object ----

  class RollingStreamingSession {
    const codec: Codec
    const limits: Limits
    var ring: seq<byte>
    var receivedPcmBytes: nat
    var lastRollingBytes: nat
    var rollingCalls: nat
    var rollingAudioSeconds: real
    var exhausted: bool
    var lastSequence: nat
    var bytesReceived: nat
    var firstFrame: bool
    var previousTokens: Text
    var committedTokens: Text
    var latestText: Text
    var closed: bool

    /** All audio decoded so far, the audio submitted for transcription, and the texts heard. */
    ghost var heard: seq<byte>
    ghost var submitted: seq<seq<byte>>
    ghost var texts: seq<Text>

    ghost function HearingView(): Hearing
      reads this
    {
      Hearing(rollingCalls, rollingAudioSeconds, exhausted, previousTokens, committedTokens, submitted, texts)
    }

    ghost function View(): Session
      reads this
    {
      Session(heard, lastRollingBytes, HearingView(), lastSequence, bytesReceived, firstFrame, closed)
    }

    /** The ring is the last window of all audio heard, and the text remembered is the last one. */
    ghost predicate Valid()
      reads this
    {
      ring == LastBytes(heard, limits.windowBytes) && receivedPcmBytes == |heard| && latestText == previousTokens &&
      lastRollingBytes <= receivedPcmBytes
    }

    constructor (codec: Codec, limits: Limits)
      ensures Valid() && View() == OPENED && this.codec == codec && this.limits == limits
    {
      this.codec, this.limits := codec, limits;
      ring, receivedPcmBytes, lastRollingBytes := [], 0, 0;
      rollingCalls, rollingAudioSeconds, exhausted := 0, 0.0, false;
      lastSequence, bytesReceived, firstFrame := 0, 0, true;
      previousTokens, committedTokens, latestText, closed := [], [], [], false;
      heard, submitted, texts := [], [], [];
    }

    /** One frame. */
    method Push(frame: seq<byte>, sequence: nat, input: Input) returns (r: Result<seq<Update>, Failure>)
      requires Valid()
      modifies this
      ensures Valid() && (View(), r) == Pushed(old(View()), codec, limits, frame, sequence, input)
    {
      if !input.inTime {
        return Err(DurationExceeded);
      }
      if closed || sequence != lastSequence + 1 {
        return Err(SequenceViolation);
      }
      if !FrameIsValid(codec, frame, firstFrame) {
        return Err(InvalidFrame);
      }
      firstFrame := false;
      lastSequence := sequence;
      bytesReceived := bytesReceived + |frame|;
      if |frame| > limits.maxFrameBytes || bytesReceived > limits.maxSessionBytes {
        return Err(ByteBoundExceeded);
      }
      var pcm := if codec.PcmS16le? then Some(frame) else input.decoded;
      if pcm.None? {
        return Err(DecodeFailed);
      }
      r := ConsumePcm(pcm.value, sequence, false, input.outcome);
    }

    /** New audio goes to the end of the ring; what no longer fits the window leaves at the front. */
    method Extend(pcm: seq<byte>)
      requires Valid()
      modifies this`ring, this`receivedPcmBytes, this`heard
      ensures Valid() && View() == old(View()).(heard := old(heard) + pcm)
    {
      RingStep(heard, pcm, limits.windowBytes);
      receivedPcmBytes := receivedPcmBytes + |pcm|;
      ring := ring + pcm;
      if |ring| > limits.windowBytes {
        ring := ring[|ring| - limits.windowBytes..];
      }
      heard := heard + pcm;
    }

    method ConsumePcm(pcm: seq<byte>, sequence: nat, force: bool, outcome: Transcription)
        returns (r: Result<seq<Update>, Failure>)
      requires Valid()
      modifies this
      ensures Valid() && (View(), r) == Consume(old(View()), pcm, sequence, force, outcome, limits)
    {
      if |pcm| % 2 != 0 {
        return Err(PartialSample);
      }
      if pcm == [] {
        return Ok([]);
      }
      Extend(pcm);
      var ready := receivedPcmBytes - lastRollingBytes >= limits.stepBytes;
      if !force && !ready {
        return Ok([]);
      }
      lastRollingBytes := receivedPcmBytes;
      r := RollingUpdate(sequence, outcome);
    }

    method RollingUpdate(sequence: nat, outcome: Transcription) returns (r: Result<seq<Update>, Failure>)
      requires Valid()
      modifies this
      ensures Valid() && (HearingView(), r) == Hear(old(HearingView()), old(ring), sequence, outcome, limits)
      ensures View() == old(View()).(hearing := HearingView())
    {
      if exhausted || ring == [] || !HasEnergy(ring, limits.energyThreshold) {
        return Ok([]);
      }
      var duration := Seconds(|ring|);
      if rollingCalls >= limits.maxCalls || rollingAudioSeconds + duration > limits.maxAudioSeconds {
        exhausted := true;
        return Ok([]);
      }
      rollingCalls := rollingCalls + 1;
      rollingAudioSeconds := rollingAudioSeconds + duration;
      submitted := submitted + [ring];
      assert HearingView() == Called(old(HearingView()), ring) && View() == old(View()).(hearing := HearingView());
      match outcome {
        case Failed => return Ok([]);
        case Heard(words, encodedBytes) => r := StableUpdates(words, encodedBytes, sequence);
      }
    }

    method StableUpdates(words: Text, encodedBytes: nat, sequence: nat) returns (r: Result<seq<Update>, Failure>)
      requires Valid()
      modifies this
      ensures Valid() && (HearingView(), r) == Listen(old(HearingView()), words, encodedBytes, sequence, limits)
      ensures View() == old(View()).(hearing := HearingView())
    {
      if words == [] {
        return Ok([]);
      }
      if encodedBytes > limits.maxUpdateTextBytes {
        return Err(UpdateTooLong);
      }
      texts := texts + [words];
      if previousTokens == [] {
        previousTokens, latestText := words, words;
        return Ok([Update(AtLeastOne(sequence), words, false, false)]);
      }
      var stable := CommonPrefix(previousTokens, words);
      LongestCommonPrefixIsUnique(stable, LongestCommonPrefix(previousTokens, words), previousTokens, words);
      previousTokens, latestText := words, words;
      if |stable| <= |committedTokens| {
        return Ok([]);
      }
      committedTokens := stable;
      r := Ok([Update(AtLeastOne(sequence), stable, true, false)]);
    }

    /** The end of the stream. */
    method Finish(input: Input) returns (r: Result<seq<Update>, Failure>)
      requires Valid()
      modifies this
      ensures Valid() && (View(), r) == Finished(old(View()), codec, limits, input)
    {
      if closed {
        return Ok([]);
      }
      closed := true;
      if !input.inTime {
        return Err(DurationExceeded);
      }
      var pcm := if codec.PcmS16le? then Some([]) else input.decoded;
      if pcm.None? {
        return Err(DecodeFailed);
      }
      if pcm.value == [] && receivedPcmBytes > lastRollingBytes {
        lastRollingBytes := receivedPcmBytes;
        r := RollingUpdate(lastSequence, input.outcome);
      } else {
        r := ConsumePcm(pcm.value, lastSequence, true, input.outcome);
      }
      if r.Ok? {
        r := Ok(WithFinal(r.value, latestText, lastSequence, committedTokens != []));
      }
    }

    method Close()
      modifies this`closed
      ensures closed
    {
      closed := true;
    }
  }

  // ---- What every session keeps ----

  function LastText(texts: seq<Text>): Text {
    if texts == [] then [] else texts[|texts| - 1]
  }

  /** The text committed by a history of transcriptions, two neighbours at a time. */
  function CommittedBy(texts: seq<Text>): Text {
    if |texts| < 2 then []
    else Commit(CommittedBy(texts[..|texts| - 1]), texts[|texts| - 2], texts[|texts| - 1])
  }

  /** Within the call and audio budgets, and text that depends on the history of texts alone. */
  ghost predicate Sound(h: Hearing, limits: Limits) {
    h.calls == |h.submitted| <= limits.maxCalls && h.seconds == Seconds(TotalBytes(h.submitted)) &&
    (h.calls > 0 ==> h.seconds <= limits.maxAudioSeconds) &&
    (forall t <- h.texts :: t != []) && h.previous == LastText(h.texts) && h.committed == CommittedBy(h.texts)
  }

  /** Every call so far was paid for by a step of audio, and less than one step is waiting. */
  ghost predicate OnCadence(s: Session, limits: Limits) {
    s.lastRolling <= |s.heard| < s.lastRolling + limits.stepBytes &&
    s.hearing.calls * limits.stepBytes <= s.lastRolling
  }

  ghost predicate Inv(s: Session, limits: Limits) {
    Sound(s.hearing, limits) && s.lastRolling <= |s.heard|
  }

  /** `u` is what the last text makes known: the first text as it is, or the longest common prefix of
      the last two texts, which is then longer than the text committed before. */
  ghost predicate Announces(u: Update, before: Hearing, after: Hearing) {
    var n := |after.texts|;
    n == |before.texts| + 1 && !u.final &&
    if u.stablePrefix
    then n >= 2 && u.text == LongestCommonPrefix(after.texts[n - 2], after.texts[n - 1]) &&
      |u.text| > |before.committed| &&
         after.committed == u.text
    else n == 1 && u.text == after.texts[0]
  }

  lemma CommittedByMore(texts: seq<Text>, words: Text)
    ensures CommittedBy(texts + [words]) ==
            if texts == [] then [] else Commit(CommittedBy(texts), texts[|texts| - 1], words)
  {
    assert (texts + [words])[..|texts|] == texts;
  }

  lemma PreviousIsLast(texts: seq<Text>, previous: Text, words: Text)
    requires previous == LastText(texts) && forall t <- texts :: t != []
    ensures previous == [] <==> texts == []
    ensures (texts + [words])[|texts|] == words
    ensures texts != [] ==> (texts + [words])[|texts| - 1] == previous
  {
    assert texts != [] ==> LastText(texts) in texts;
  }

  /** What one more text makes known. */
  lemma AnnouncesNext(h: Hearing, words: Text, encodedBytes: nat, sequence: nat, limits: Limits)
    requires Sound(h, limits) && words != [] && encodedBytes <= limits.maxUpdateTextBytes
    ensures var after := Listen(h, words, encodedBytes, sequence, limits).0;
            forall u <- Announcement(h.committed, h.previous, words, sequence) :: u.sequence == AtLeastOne(sequence) &&
              Announces(u, h, after)
  {
    PreviousIsLast(h.texts, h.previous, words);
    var after := Listen(h, words, encodedBytes, sequence, limits).0;
    var stable := LongestCommonPrefix(h.previous, words);
    if h.previous == [] {
      assert Announces(Update(AtLeastOne(sequence), words, false, false), h, after);
    } else if |stable| > |h.committed| {
      assert Announces(Update(AtLeastOne(sequence), stable, true, false), h, after);
    }
  }

  lemma ListenIsSound(h: Hearing, words: Text, encodedBytes: nat, sequence: nat, limits: Limits)
    requires Sound(h, limits) && words != [] && encodedBytes <= limits.maxUpdateTextBytes
    ensures var after := Listen(h, words, encodedBytes, sequence, limits).0;
            Sound(after, limits) && |h.committed| <= |after.committed|
  {
    CommittedByMore(h.texts, words);
    PreviousIsLast(h.texts, h.previous, words);
  }

  lemma ListenKeepsSound(h: Hearing, words: Text, encodedBytes: nat, sequence: nat, limits: Limits)
    requires Sound(h, limits)
    ensures var (after, r) := Listen(h, words, encodedBytes, sequence, limits);
            Sound(after, limits) && after.submitted == h.submitted && |h.committed| <= |after.committed| &&
            (r.Ok? ==> forall u <- r.value :: u.sequence == AtLeastOne(sequence) && Announces(u, h, after))
  {
    if words != [] && encodedBytes <= limits.maxUpdateTextBytes {
      ListenIsSound(h, words, encodedBytes, sequence, limits);
      AnnouncesNext(h, words, encodedBytes, sequence, limits);
    }
  }

  /** What a chance to transcribe keeps: budgets, the fold over the texts, and the meaning of the
      update it gives, if any. */
  lemma HearKeepsSound(h: Hearing, ring: seq<byte>, sequence: nat, outcome: Transcription, limits: Limits)
    requires Sound(h, limits)
    ensures var (after, r) := Hear(h, ring, sequence, outcome, limits);
            Sound(after, limits) && |h.committed| <= |after.committed| && after.calls <= h.calls + 1 &&
            (r.Ok? ==> forall u <- r.value :: u.sequence == AtLeastOne(sequence) && Announces(u, h, after))
  {
    if CallIsMade(h, ring, limits) {
      CalledIsSound(h, ring, limits);
      if outcome.Heard? {
        HeardKeepsSound(h, ring, outcome.words, outcome.encodedBytes, sequence, limits);
      }
    }
  }

  lemma HeardKeepsSound(h: Hearing, ring: seq<byte>, words: Text, encodedBytes: nat, sequence: nat, limits: Limits)
    requires Sound(h, limits) && Sound(Called(h, ring), limits)
    ensures var (after, r) := Listen(Called(h, ring), words, encodedBytes, sequence, limits);
            Sound(after, limits) && |h.committed| <= |after.committed| && after.calls == h.calls + 1 &&
            (r.Ok? ==> forall u <- r.value :: u.sequence == AtLeastOne(sequence) && Announces(u, h, after))
  {
    ListenKeepsSound(Called(h, ring), words, encodedBytes, sequence, limits);
    var (after, r) := Listen(Called(h, ring), words, encodedBytes, sequence, limits);
    if r.Ok? {
      forall u <- r.value ensures Announces(u, h, after) {
        assert Announces(u, Called(h, ring), after);
      }
    }
  }

  lemma CalledIsSound(h: Hearing, ring: seq<byte>, limits: Limits)
    requires Sound(h, limits) && Affordable(h, ring, limits)
    ensures Sound(Called(h, ring), limits)
  {
    assert (h.submitted + [ring])[..|h.submitted|] == h.submitted;
    SecondsAdd(TotalBytes(h.submitted), |ring|);
  }

  predicate CallIsMade(h: Hearing, ring: seq<byte>, limits: Limits) {
    !h.exhausted && Worthwhile(ring, limits) && Affordable(h, ring, limits)
  }

  function NewTexts(t: Transcription, limits: Limits): seq<Text> {
    match t
    case Failed => []
    case Heard(words, bytes) => if words == [] || bytes > limits.maxUpdateTextBytes then [] else [words]
  }

  /** What is submitted and what is heard, in terms of the chance alone: the ring is submitted exactly
      when a call is due, the texts grow by its outcome, and the budget is given up exactly when a
      worthwhile ring has become too expensive. */
  lemma CallsExactlyWhenDue(h: Hearing, ring: seq<byte>, sequence: nat, outcome: Transcription, limits: Limits)
    ensures var after := Hear(h, ring, sequence, outcome, limits).0;
            after.submitted == h.submitted + (if CallIsMade(h, ring, limits) then [ring] else []) &&
            after.texts == h.texts + (if CallIsMade(h, ring, limits) then NewTexts(outcome, limits) else []) &&
            (after.exhausted <==> h.exhausted || (Worthwhile(ring, limits) && !Affordable(h, ring, limits)))
  {
    assert h.texts + [] == h.texts && h.submitted + [] == h.submitted;
  }

  // ---- Operations of a session ----

  lemma TranscribeKeeps(s: Session, sequence: nat, outcome: Transcription, limits: Limits)
    requires Inv(s, limits)
    ensures var (after, r) := Transcribe(s, sequence, outcome, limits);
            Inv(after, limits) && |s.hearing.committed| <= |after.hearing.committed| &&
              after.hearing.calls <= s.hearing.calls + 1 &&
            (r.Ok? ==>
               forall u <- r.value :: u.sequence == AtLeastOne(sequence) && Announces(u, s.hearing, after.hearing))
  {
    HearKeepsSound(s.hearing, Ring(s, limits), sequence, outcome, limits);
  }

  /** One chance to transcribe costs at most one call. */
  lemma OneCallMore(s: Session, sequence: nat, outcome: Transcription, limits: Limits)
    requires Inv(s, limits) && s.hearing.calls * limits.stepBytes <= s.lastRolling
    ensures Transcribe(s, sequence, outcome, limits).0.hearing.calls * limits.stepBytes <= s.lastRolling +
            limits.stepBytes
  {
    TranscribeKeeps(s, sequence, outcome, limits);
    OneMoreStep(s.hearing.calls, limits.stepBytes);
    StepsMonotone(Transcribe(s, sequence, outcome, limits).0.hearing.calls, s.hearing.calls + 1, limits.stepBytes);
  }

  lemma ConsumeKeeps(s: Session, pcm: seq<byte>, sequence: nat, outcome: Transcription, limits: Limits)
    requires Inv(s, limits) && OnCadence(s, limits)
    ensures var (after, r) := Consume(s, pcm, sequence, false, outcome, limits);
            Inv(after, limits) && OnCadence(after, limits) && after.closed == s.closed &&
            |s.hearing.committed| <= |after.hearing.committed| &&
            (r.Ok? ==>
               forall u <- r.value :: u.sequence == AtLeastOne(sequence) && Announces(u, s.hearing, after.hearing))
  {
    var longer := s.(heard := s.heard + pcm);
    if |longer.heard| - s.lastRolling >= limits.stepBytes {
      TranscribeKeeps(longer, sequence, outcome, limits);
      OneCallMore(longer, sequence, outcome, limits);
    }
  }

  /** Main result on frames: a push keeps budgets and cadence, announces at most one update, which is
      the longest common prefix of two consecutive texts or the first text, and never shortens the
      committed text. */
  lemma PushKeeps(s: Session, codec: Codec, limits: Limits, frame: seq<byte>, sequence: nat, input: Input)
    requires Inv(s, limits) && OnCadence(s, limits)
    ensures var (after, r) := Pushed(s, codec, limits, frame, sequence, input);
            Inv(after, limits) && OnCadence(after, limits) && after.closed == s.closed &&
            |s.hearing.committed| <= |after.hearing.committed| &&
            (r.Ok? ==>
               |r.value| <= 1 &&
               forall u <- r.value :: u.sequence == sequence && Announces(u, s.hearing, after.hearing))
  {
    var pcm := AudioOf(codec, frame, input);
    var counted := s.(firstFrame := false, lastSequence := sequence, bytesReceived := s.bytesReceived + |frame|);
    if Refusal(s, codec, frame, sequence, input.inTime).Some? {
    } else if |frame| > limits.maxFrameBytes || counted.bytesReceived > limits.maxSessionBytes || pcm.None? {
      assert Inv(counted, limits) && OnCadence(counted, limits);
    } else {
      assert Pushed(s, codec, limits, frame, sequence, input) ==
             Consume(counted, pcm.value, sequence, false, input.outcome, limits);
      ConsumeKeeps(counted, pcm.value, sequence, input.outcome, limits);
    }
  }

  lemma StepsMonotone(a: nat, b: nat, step: nat)
    requires a <= b
    ensures a * step <= b * step
  {
  }

  /** The audio of an accepted frame: itself, or what the decoder makes of it. */
  function AudioOf(codec: Codec, frame: seq<byte>, input: Input): Option<seq<byte>> {
    if codec.PcmS16le? then Some(frame) else input.decoded
  }

  /** Main result on calls: a successful push hears exactly the audio of its frame, and submits the
      last window of everything heard exactly when a full step has accumulated, the window has
      energy and both budgets allow it; the texts grow by the outcome of that call alone. */
  lemma PushCallsExactlyWhenDue(s: Session, codec: Codec, limits: Limits, frame: seq<byte>, sequence: nat, input: Input)
    requires Pushed(s, codec, limits, frame, sequence, input).1.Ok? && limits.stepBytes > 0 && OnCadence(s, limits)
    ensures Refusal(s, codec, frame, sequence, input.inTime).None? && AudioOf(codec, frame, input).Some?
    ensures var after := Pushed(s, codec, limits, frame, sequence, input).0;
            var ring := LastBytes(after.heard, limits.windowBytes);
            var called := |after.heard| - s.lastRolling >= limits.stepBytes && CallIsMade(s.hearing, ring, limits);
            after.heard == s.heard + AudioOf(codec, frame, input).value &&
            after.hearing.submitted == s.hearing.submitted + (if called then [ring] else []) &&
            after.hearing.texts == s.hearing.texts + (if called then NewTexts(input.outcome, limits) else []) &&
            after.lastSequence == sequence && after.bytesReceived == s.bytesReceived + |frame| <= limits.maxSessionBytes
  {
    var after := Pushed(s, codec, limits, frame, sequence, input).0;
    var pcm := AudioOf(codec, frame, input).value;
    assert s.heard + [] == s.heard && s.hearing.texts + [] == s.hearing.texts &&
           s.hearing.submitted + [] == s.hearing.submitted;
    CallsExactlyWhenDue(s.hearing, LastBytes(s.heard + pcm, limits.windowBytes), sequence, input.outcome, limits);
  }

  /** Once the budget is given up no further call is made by any operation. */
  lemma ExhaustedStaysSilent(s: Session, codec: Codec, limits: Limits, frame: seq<byte>, sequence: nat, input: Input)
    requires s.hearing.exhausted
    ensures Pushed(s, codec, limits, frame, sequence, input).0.hearing == s.hearing
    ensures Finished(s, codec, limits, input).0.hearing == s.hearing
  {
  }

  /** Main result on the end: the waiting audio is submitted if a call is due, at most one call is
      made, at most two updates are given, exactly the last of them final, with the latest text. */
  lemma FinishKeeps(s: Session, codec: Codec, limits: Limits, input: Input)
    requires Inv(s, limits) && OnCadence(s, limits) && !s.closed
    ensures var (after, r) := Finished(s, codec, limits, input);
            Inv(after, limits) && after.closed &&
              after.hearing.calls * limits.stepBytes <= |after.heard| + limits.stepBytes &&
            (r.Ok? ==>
               |r.value| <= 2 && (r.value == [] <==> after.hearing.texts == []) &&
               (forall i :: 0 <= i < |r.value| ==> (r.value[i].final <==> i == |r.value| - 1)) &&
               (r.value != [] ==> r.value[|r.value| - 1].text == LastText(after.hearing.texts)) &&
               (|r.value| == 2 ==> Announces(r.value[0], s.hearing, after.hearing) && r.value[0].stablePrefix))
  {
    var ended := s.(closed := true);
    var pcm := AudioOf(codec, [], input);
    if input.inTime && pcm.Some? {
      ConsumeRestKeeps(ended, pcm.value, input.outcome, limits);
      var (last, r) := ConsumeRest(ended, pcm.value, input.outcome, limits);
      if r.Ok? {
        FirstTextIsLatest(s.hearing, last.hearing, last.lastSequence, r);
      }
    }
  }

  lemma ConsumeRestKeeps(s: Session, pcm: seq<byte>, outcome: Transcription, limits: Limits)
    requires Inv(s, limits) && OnCadence(s, limits)
    ensures var (after, r) := ConsumeRest(s, pcm, outcome, limits);
            Inv(after, limits) && after.closed == s.closed &&
              after.hearing.calls * limits.stepBytes <= |after.heard| + limits.stepBytes &&
            (r.Ok? ==> forall u <- r.value :: Announces(u, s.hearing, after.hearing))
  {
    if |pcm| % 2 == 0 && (pcm != [] || |s.heard| > s.lastRolling) {
      var longer := s.(heard := s.heard + pcm);
      assert s.heard + [] == s.heard;
      TranscribeKeeps(longer, s.lastSequence, outcome, limits);
      OneCallMore(longer, s.lastSequence, outcome, limits);
      assert ConsumeRest(s, pcm, outcome, limits) == Transcribe(longer, s.lastSequence, outcome, limits);
    } else {
      assert ConsumeRest(s, pcm, outcome, limits).0 == s;
    }
  }

  /** An update that is not a stable prefix is the latest text itself. */
  lemma FirstTextIsLatest(before: Hearing, after: Hearing, lastSequence: nat, r: Result<seq<Update>, Failure>)
    requires r.Ok? && |r.value| <= 1 && (r.value != [] ==> after.previous != []) &&
               after.previous == LastText(after.texts)
    requires forall t <- after.texts :: t != []
    requires forall u <- r.value :: Announces(u, before, after)
    ensures var all := WithFinal(r.value, after.previous, lastSequence, after.committed != []);
            (all == [] <==> after.texts == []) &&
            (forall i :: 0 <= i < |all| ==> (all[i].final <==> i == |all| - 1)) &&
            (|all| == 2 ==> Announces(all[0], before, after) && all[0].stablePrefix)
  {
    assert after.texts != [] ==> LastText(after.texts) in after.texts;
    if r.value != [] {
      assert r.value[0] in r.value;
    }
  }

  /** What the end submits: the audio that is still waiting, with what the decoder adds. */
  lemma FinishCallsExactlyWhenDue(s: Session, codec: Codec, limits: Limits, input: Input)
    requires !s.closed && Finished(s, codec, limits, input).1.Ok? && s.lastRolling <= |s.heard|
    ensures input.inTime && AudioOf(codec, [], input).Some?
    ensures var after := Finished(s, codec, limits, input).0;
            var ring := LastBytes(after.heard, limits.windowBytes);
            var called := |after.heard| > s.lastRolling && CallIsMade(s.hearing, ring, limits);
            after.heard == s.heard + AudioOf(codec, [], input).value &&
            after.hearing.submitted == s.hearing.submitted + (if called then [ring] else []) &&
            after.hearing.texts == s.hearing.texts + (if called then NewTexts(input.outcome, limits) else [])
  {
    var pcm := AudioOf(codec, [], input).value;
    assert s.heard + [] == s.heard && s.hearing.texts + [] == s.hearing.texts &&
           s.hearing.submitted + [] == s.hearing.submitted;
    CallsExactlyWhenDue(s.hearing, LastBytes(s.heard + pcm, limits.windowBytes), s.lastSequence, input.outcome, limits);
  }

  // ---- Whole sessions ----

  datatype Frame = Frame(bytes: seq<byte>, sequence: nat, input: Input)

  /** The session after a list of frames, accepted or not. */
  function AfterFrames(codec: Codec, limits: Limits, frames: seq<Frame>): Session {
    if frames == [] then OPENED
    else
      var f := frames[|frames| - 1];
      Pushed(AfterFrames(codec, limits, frames[..|frames| - 1]), codec, limits, f.bytes, f.sequence, f.input).0
  }

  /** Main result: in every session less than one step is outstanding after each frame, the calls
      are at most one for each step received, and both budgets are kept. */
  lemma {:induction false} SessionsStayInBounds(codec: Codec, limits: Limits, frames: seq<Frame>)
    requires limits.stepBytes > 0
    ensures var s := AfterFrames(codec, limits, frames);
            Inv(s, limits) && OnCadence(s, limits) && !s.closed &&
            s.hearing.calls <= limits.maxCalls && s.hearing.calls * limits.stepBytes <= |s.heard| &&
            (s.hearing.calls > 0 ==> s.hearing.seconds <= limits.maxAudioSeconds)
  {
    if frames == [] {
      assert AfterFrames(codec, limits, frames) == OPENED;
    } else {
      var f, before := frames[|frames| - 1], frames[..|frames| - 1];
      SessionsStayInBounds(codec, limits, before);
      PushKeeps(AfterFrames(codec, limits, before), codec, limits, f.bytes, f.sequence, f.input);
    }
  }

  function Given(r: Result<seq<Update>, Failure>): seq<Update> { if r.Ok? then r.value else [] }

  /** Everything a session gives out for a list of frames. */
  function Emitted(codec: Codec, limits: Limits, frames: seq<Frame>): seq<Update> {
    if frames == [] then []
    else
      var f, before := frames[|frames| - 1], frames[..|frames| - 1];
      Emitted(codec, limits, before) +
      Given(Pushed(AfterFrames(codec, limits, before), codec, limits, f.bytes, f.sequence, f.input).1)
  }

  /** Only the first update may be unstable, the stable ones grow in tokens, and only the last one is
      final; the final update repeats the latest text, stable or not, and need not grow. */
  ghost predicate InOrder(updates: seq<Update>) {
    (forall i :: 0 < i < |updates| ==> updates[i].stablePrefix || updates[i].final) &&
    (forall i :: 0 <= i < |updates| && updates[i].final ==> i == |updates| - 1) &&
    forall i, j :: 0 <= i < j < |updates| && updates[i].stablePrefix && updates[j].stablePrefix && !updates[j].final ==>
      |updates[i].text| < |updates[j].text|
  }

  /** Updates that have been announced, none of them final, are covered by the committed text. */
  ghost predicate Covered(updates: seq<Update>, h: Hearing) {
    InOrder(updates) && (updates != [] ==> h.texts != []) &&
    forall u <- updates :: !u.final && (u.stablePrefix ==> |u.text| <= |h.committed|)
  }

  lemma OneMoreAnnounced(updates: seq<Update>, u: Update, before: Hearing, after: Hearing)
    requires Covered(updates, before) && Announces(u, before, after)
    ensures Covered(updates + [u], after)
  {
    var all, n := updates + [u], |updates|;
    forall i | 0 <= i < n
      ensures all[i] in updates && !all[i].final
      ensures all[i].stablePrefix && u.stablePrefix ==> |all[i].text| < |u.text|
    {
      assert all[i] == updates[i];
    }
  }

  lemma NothingAnnounced(updates: seq<Update>, before: Hearing, after: Hearing)
    requires Covered(updates, before) && |before.committed| <= |after.committed| &&
             (before.texts != [] ==> after.texts != [])
    ensures Covered(updates, after)
  {
  }

  lemma AfterResult(updates: seq<Update>, given: seq<Update>, before: Hearing, after: Hearing)
    requires Covered(updates, before) && |given| <= 1 && forall u <- given :: Announces(u, before, after)
    requires |before.committed| <= |after.committed| && (before.texts != [] ==> after.texts != [])
    ensures Covered(updates + given, after)
  {
    if given == [] {
      NothingAnnounced(updates, before, after);
      assert updates + [] == updates;
    } else {
      assert given[0] in given && given == [given[0]];
      OneMoreAnnounced(updates, given[0], before, after);
    }
  }

  lemma TextsRemain(s: Session, codec: Codec, limits: Limits, frame: seq<byte>, sequence: nat, input: Input)
    requires s.hearing.texts != []
    ensures Pushed(s, codec, limits, frame, sequence, input).0.hearing.texts != []
  {
  }

  lemma {:induction false} EmittedIsCovered(codec: Codec, limits: Limits, frames: seq<Frame>)
    requires limits.stepBytes > 0
    ensures Covered(Emitted(codec, limits, frames), AfterFrames(codec, limits, frames).hearing)
  {
    if frames == [] {
    } else {
      var f, before := frames[|frames| - 1], frames[..|frames| - 1];
      var s := AfterFrames(codec, limits, before);
      EmittedIsCovered(codec, limits, before);
      SessionsStayInBounds(codec, limits, before);
      PushKeeps(s, codec, limits, f.bytes, f.sequence, f.input);
      var (after, r) := Pushed(s, codec, limits, f.bytes, f.sequence, f.input);
      if s.hearing.texts != [] {
        TextsRemain(s, codec, limits, f.bytes, f.sequence, f.input);
      }
      AfterResult(Emitted(codec, limits, before), Given(r), s.hearing, after.hearing);
    }
  }

  lemma FinalComesLast(updates: seq<Update>, u: Update, h: Hearing)
    requires Covered(updates, h) && u.final
    ensures InOrder(updates + [u])
  {
    var all := updates + [u];
    assert forall i :: 0 <= i < |updates| ==> all[i] == updates[i] && updates[i] in updates;
  }

  lemma AfterFinal(updates: seq<Update>, given: seq<Update>, before: Hearing, after: Hearing)
    requires Covered(updates, before) && |given| <= 2
    requires forall i :: 0 <= i < |given| ==> (given[i].final <==> i == |given| - 1)
    requires |given| == 2 ==> Announces(given[0], before, after)
    ensures InOrder(updates + given) && (given != [] ==> (updates + given)[|updates + given| - 1] == given[|given| - 1])
  {
    if given == [] {
      assert updates + [] == updates;
    } else if |given| == 1 {
      FinalComesLast(updates, given[0], before);
      assert given == [given[0]];
    } else {
      OneMoreAnnounced(updates, given[0], before, after);
      FinalComesLast(updates + [given[0]], given[1], after);
      assert updates + given == (updates + [given[0]]) + [given[1]];
    }
  }

  lemma EndAnnounces(s: Session, updates: seq<Update>, codec: Codec, limits: Limits, input: Input)
    requires Inv(s, limits) && OnCadence(s, limits) && !s.closed && Covered(updates, s.hearing)
    ensures var (after, r) := Finished(s, codec, limits, input);
            var all := updates + Given(r);
            InOrder(all) && (Given(r) != [] ==> IsClosing(all, after.hearing))
  {
    FinishKeeps(s, codec, limits, input);
    var (after, r) := Finished(s, codec, limits, input);
    AfterFinal(updates, Given(r), s.hearing, after.hearing);
  }

  /** The last update is final and has the text heard last. */
  ghost predicate IsClosing(updates: seq<Update>, h: Hearing) {
    updates != [] && updates[|updates| - 1].final && updates[|updates| - 1].text == LastText(h.texts)
  }

  /** Main result on updates: over a whole session, whatever the frames and the outcomes of the calls,
      the stable updates strictly grow, and a final update is given at most once, by the end, after all
      others and with the text heard last. */
  lemma SessionsAnnounceInOrder(codec: Codec, limits: Limits, frames: seq<Frame>, input: Input)
    requires limits.stepBytes > 0
    ensures var (after, r) := Finished(AfterFrames(codec, limits, frames), codec, limits, input);
            var all := Emitted(codec, limits, frames) + Given(r);
            InOrder(all) && (Given(r) != [] ==> IsClosing(all, after.hearing))
    ensures forall u <- Emitted(codec, limits, frames) :: !u.final
  {
    EmittedIsCovered(codec, limits, frames);
    SessionsStayInBounds(codec, limits, frames);
    EndAnnounces(AfterFrames(codec, limits, frames), Emitted(codec, limits, frames), codec, limits, input);
  }

  lemma OneMoreStep(calls: nat, step: nat)
    ensures (calls + 1) * step == calls * step + step
  {
  }

  lemma SecondsAdd(a: nat, b: nat)
    ensures Seconds(a + b) == Seconds(a) + Seconds(b)
  {
  }

  // ---- Commitment is by length, not by prefix ----

  /** Committed text grows in length at every commitment, but it is extended exactly when the text
      committed before is still a prefix of both transcriptions. */
  lemma CommitExtendsIff(committed: Text, previous: Text, current: Text)
    requires |LongestCommonPrefix(previous, current)| > |committed|
    ensures committed <= Commit(committed, previous, current) <==> committed <= previous && committed <= current
    ensures |committed| < |Commit(committed, previous, current)|
  {
    var stable := LongestCommonPrefix(previous, current);
    if committed <= previous && committed <= current {
      LongestCommonPrefixIsGreatest(stable, previous, current, committed);
    }
  }

  /** A session that hears one text twice and then, after the window has slid, quite another one
      twice: the committed text is replaced, not extended. */
  lemma CommitCanReplace()
    ensures var texts := [["good", "morning"], ["good", "morning"], ["your", "account", "is"],
                          ["your", "account", "is"]];
            CommittedBy(texts[..2]) == CommittedBy(texts[..3]) == ["good", "morning"] &&
            CommittedBy(texts) == ["your", "account", "is"] && !(CommittedBy(texts[..3]) <= CommittedBy(texts))
  {
    var a, b := ["good", "morning"], ["your", "account", "is"];
    var texts := [a, a, b, b];
    assert "good"[0] != "your"[0];
    LongestCommonPrefixIsUnique(LongestCommonPrefix(a, a), a, a, a);
    LongestCommonPrefixIsUnique(LongestCommonPrefix(a, b), [], a, b);
    LongestCommonPrefixIsUnique(LongestCommonPrefix(b, b), b, b, b);
    assert texts[..2][..1] == [a] && texts[..3][..2] == texts[..2] && texts[..4][..3] == texts[..3] &&
           texts[..4] == texts;
    assert CommittedBy([a]) == [];
    assert CommittedBy(texts[..2]) == a;
    assert CommittedBy(texts[..3]) == a;
    assert CommittedBy(texts) == b;
    assert a[0] != b[0];
  }
}
