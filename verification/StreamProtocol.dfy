// The two ends of the streaming transport: a client session, the server loop with its rolling
// session, and two ordered channels between them. Every run is proved to stay in lock step.

module StreamProtocol {
  import opened Bytes
  import opened Outcomes
  import RollingSession

  const SEQUENCE_BYTES: nat := 4
  const SEQUENCE_LIMIT: nat := 0x1_0000_0000
  const MAX_UPDATES_PER_OPERATION: nat := 4

  // ---- Binary framing ----

  lemma SequenceCapacity()
    ensures Capacity(SEQUENCE_BYTES) == SEQUENCE_LIMIT
  {
    assert Capacity(2) == 0x1_0000;
  }

  function Encode(sequence: nat, frame: seq<byte>): seq<byte>
    requires sequence < SEQUENCE_LIMIT
  {
    SequenceCapacity();
    BigEndian(sequence, SEQUENCE_BYTES) + frame
  }

  datatype ParseError = InvalidFrame | UnexpectedSequence

  function ParseBinaryFrame(value: seq<byte>, expected: nat): Result<(nat, seq<byte>), ParseError> {
    if |value| <= SEQUENCE_BYTES then Err(InvalidFrame)
    else
      var sequence := BigEndianValue(value[..SEQUENCE_BYTES]);
      if sequence != expected then Err(UnexpectedSequence) else Ok((sequence, value[SEQUENCE_BYTES..]))
  }

  /** The server accepts an encoded frame under exactly one expectation, and recovers it. */
  lemma FramingRoundTrips(sequence: nat, frame: seq<byte>, expected: nat)
    requires sequence < SEQUENCE_LIMIT && frame != []
    ensures ParseBinaryFrame(Encode(sequence, frame), expected) ==
            if sequence == expected then Ok((sequence, frame)) else Err(UnexpectedSequence)
  {
    SequenceCapacity();
    BigEndianRoundTrip(sequence, SEQUENCE_BYTES);
    assert Encode(sequence, frame)[..SEQUENCE_BYTES] == BigEndian(sequence, SEQUENCE_BYTES);
    assert Encode(sequence, frame)[SEQUENCE_BYTES..] == frame;
  }

  /** And whatever the server accepts is the encoding of what it read. */
  lemma ParsedIsEncoded(value: seq<byte>, expected: nat)
    requires ParseBinaryFrame(value, expected).Ok?
    ensures expected < SEQUENCE_LIMIT && value == Encode(expected, ParseBinaryFrame(value, expected).value.1)
  {
    SequenceCapacity();
    BigEndianIsOnto(value[..SEQUENCE_BYTES]);
    assert value == value[..SEQUENCE_BYTES] + value[SEQUENCE_BYTES..];
  }

  /** Which frames parse, and which of the two complaints the others draw. */
  lemma ParseIsExact(value: seq<byte>, expected: nat)
    ensures ParseBinaryFrame(value, expected) == Err(InvalidFrame) <==> |value| <= 4
    ensures ParseBinaryFrame(value, expected).Ok? <==>
              |value| > 4 && expected < SEQUENCE_LIMIT && value[..4] == BigEndian(expected, 4)
  {
    if |value| > 4 {
      SequenceCapacity();
      BigEndianIsOnto(value[..4]);
      if expected < SEQUENCE_LIMIT {
        BigEndianRoundTrip(expected, 4);
      }
    }
  }

  // ---- The system ----

  type Update = RollingSession.Update

  datatype ToServer = Binary(value: seq<byte>) | End(endSequence: nat)

  datatype ToClient = Note(update: Update) | Ack(ackSequence: nat) | Finished(finishedSequence: nat)

  datatype ClientPhase =
    | Idle
    | AwaitingAck(ackFor: nat, collected: seq<Update>)
    | AwaitingFinished(finishFor: nat, gathered: seq<Update>)
    | Done

  /** The client, the two channels, and the server loop with its rolling session. `violation` records
      a protocol error noticed at either end. */
  datatype System = System(
    nextSequence: nat, client: ClientPhase, delivered: seq<Update>,
    toServer: seq<ToServer>, toClient: seq<ToClient>,
    sequence: nat, bytesReceived: nat, serverDone: bool, session: RollingSession.Session,
    emitted: seq<Update>, violation: bool)

  datatype Config = Config(codec: RollingSession.Codec, limits: RollingSession.Limits)

  const START := System(1, Idle, [], [], [], 0, 0, false, RollingSession.OPENED, [], false)

  /** Frames the server has no reason of its own to turn away. */
  predicate Acceptable(s: System, frame: seq<byte>, cfg: Config) {
    RollingSession.FrameIsValid(cfg.codec, frame, s.sequence == 0) &&
    |frame| <= cfg.limits.maxFrameBytes && s.bytesReceived + |frame| <= cfg.limits.maxSessionBytes
  }

  /** The client sends the next frame; the caller numbers frames as the session expects. A number
      that does not fit four bytes cannot be sent. */
  ghost predicate ClientSends(s: System, t: System, frame: seq<byte>, cfg: Config) {
    s.client.Idle? && Acceptable(s, frame, cfg) &&
    t == if s.nextSequence >= SEQUENCE_LIMIT then s.(client := Done, violation := true)
         else s.(toServer := s.toServer + [Binary(Encode(s.nextSequence, frame))],
                 client := AwaitingAck(s.nextSequence, []))
  }

  ghost predicate ClientEnds(s: System, t: System) {
    s.client.Idle? && t == s.(toServer := s.toServer + [End(s.nextSequence)],
                              client := AwaitingFinished(s.nextSequence, []))
  }

  function Notes(updates: seq<Update>): (r: seq<ToClient>)
    ensures |r| == |updates| && forall i :: 0 <= i < |updates| ==> r[i] == Note(updates[i])
  {
    seq(|updates|, i requires 0 <= i < |updates| => Note(updates[i]))
  }

  /** Failures of a session that do not come from the protocol: the clock, the decoder, the
      transcription. A run is one in which they do not occur. */
  predicate FromSurroundings(f: RollingSession.Failure) {
    f.DurationExceeded? || f.DecodeFailed? || f.PartialSample? || f.UpdateTooLong?
  }

  /** What a session does with a frame the server passes on to it. */
  function Push(s: System, frame: seq<byte>, sequence: nat, input: RollingSession.Input, cfg: Config):
      (RollingSession.Session, Result<seq<Update>, RollingSession.Failure>)
  {
    RollingSession.Pushed(s.session, cfg.codec, cfg.limits, frame, sequence, input)
  }

  function Finish(s: System, input: RollingSession.Input, cfg: Config):
      (RollingSession.Session, Result<seq<Update>, RollingSession.Failure>)
  {
    RollingSession.Finished(s.session, cfg.codec, cfg.limits, input)
  }

  /** The server has received a frame it can pass on: the session's updates, then the
      acknowledgement. */
  ghost predicate ServerPushes(s: System, t: System, sequence: nat, frame: seq<byte>, input: RollingSession.Input,
                               cfg: Config)
    requires s.toServer != []
  {
    var rest := s.(toServer := s.toServer[1..]);
    var (session, r) := Push(s, frame, sequence, input, cfg);
    if r.Err? then !FromSurroundings(r.error) && t == rest.(serverDone := true, violation := true)
    else t == rest.(bytesReceived := s.bytesReceived + |frame|, sequence := sequence, session := session,
                    emitted := s.emitted + r.value, toClient := s.toClient + Notes(r.value) + [Ack(sequence)])
  }

  ghost predicate ServerFinishes(s: System, t: System, input: RollingSession.Input, cfg: Config)
    requires s.toServer != []
  {
    var rest := s.(toServer := s.toServer[1..]);
    var (session, r) := Finish(s, input, cfg);
    if r.Err? then !FromSurroundings(r.error) && t == rest.(serverDone := true, violation := true)
    else t == rest.(sequence := s.sequence + 1, serverDone := true, session := session,
                    emitted := s.emitted + r.value,
                    toClient := s.toClient + Notes(r.value) + [Finished(s.sequence + 1)])
  }

  ghost predicate ServerFails(s: System, t: System)
    requires s.toServer != []
  {
    t == s.(toServer := s.toServer[1..], serverDone := true, violation := true)
  }

  /** The server loop on a binary message. */
  ghost predicate ServerReads(s: System, t: System, value: seq<byte>, input: RollingSession.Input, cfg: Config)
    requires s.toServer != []
  {
    var parsed := ParseBinaryFrame(value, s.sequence + 1);
    if parsed.Err? || !Acceptable(s, parsed.value.1, cfg) then ServerFails(s, t)
    else ServerPushes(s, t, parsed.value.0, parsed.value.1, input, cfg)
  }

  /** The server loop on one message. */
  ghost predicate ServerReceives(s: System, t: System, input: RollingSession.Input, cfg: Config) {
    s.toServer != [] && !s.serverDone &&
    match s.toServer[0]
    case Binary(value) => ServerReads(s, t, value, input, cfg)
    case End(n) => if n != s.sequence + 1 then ServerFails(s, t) else ServerFinishes(s, t, input, cfg)
  }

  /** The client reads until the message that closes the operation. */
  function Collected(client: ClientPhase): seq<Update> {
    match client
    case AwaitingAck(_, updates) => updates
    case AwaitingFinished(_, updates) => updates
    case _ => []
  }

  function WithUpdate(client: ClientPhase, u: Update): ClientPhase {
    match client
    case AwaitingAck(n, updates) => AwaitingAck(n, updates + [u])
    case AwaitingFinished(n, updates) => AwaitingFinished(n, updates + [u])
    case _ => client
  }

  ghost predicate ClientReceives(s: System, t: System) {
    s.toClient != [] && (s.client.AwaitingAck? || s.client.AwaitingFinished?) &&
    var rest := s.(toClient := s.toClient[1..]);
    var m := s.toClient[0];
    if m.Note? then
      if |Collected(s.client)| >= MAX_UPDATES_PER_OPERATION then t == rest.(client := Done, violation := true)
      else t == rest.(client := WithUpdate(s.client, m.update))
    else if s.client.AwaitingAck? && m == Ack(s.client.ackFor) then
      t == rest.(client := Idle, nextSequence := s.nextSequence + 1, delivered := s.delivered + s.client.collected)
    else if s.client.AwaitingFinished? && m == Finished(s.client.finishFor) then
      t == rest.(client := Done, nextSequence := s.nextSequence + 1, delivered := s.delivered + s.client.gathered)
    else t == rest.(client := Done, violation := true)
  }

  ghost predicate Next(s: System, t: System, cfg: Config) {
    (exists frame :: ClientSends(s, t, frame, cfg)) ||
    ClientEnds(s, t) ||
    (exists input :: ServerReceives(s, t, input, cfg)) ||
    ClientReceives(s, t)
  }

  ghost predicate StepAt(run: seq<System>, cfg: Config, i: nat)
    requires 0 < i < |run|
  {
    Next(run[i - 1], run[i], cfg)
  }

  ghost predicate IsRun(run: seq<System>, cfg: Config) {
    run != [] && run[0] == START && forall i :: 0 < i < |run| ==> StepAt(run, cfg, i)
  }

  // ---- What the session contributes ----

  /** A session as the server loop leaves it between two frames. */
  predicate SessionAt(session: RollingSession.Session, frames: nat, bytes: nat) {
    session.lastSequence == frames && session.bytesReceived == bytes && (session.firstFrame <==> frames == 0)
  }

  /** A frame the server accepts is accepted by the session, which answers with at most one update. */
  lemma PushAnswers(s: System, frame: seq<byte>, input: RollingSession.Input, cfg: Config)
    requires SessionAt(s.session, s.sequence, s.bytesReceived) && !s.session.closed && Acceptable(s, frame, cfg)
    ensures var (session, r) := Push(s, frame, s.sequence + 1, input, cfg);
            if r.Err? then FromSurroundings(r.error)
            else |r.value| <= 1 && !session.closed && SessionAt(session, s.sequence + 1, s.bytesReceived + |frame|)
  {
  }

  /** The end is always accepted, and answered with at most two updates. */
  lemma FinishAnswers(s: System, input: RollingSession.Input, cfg: Config)
    requires !s.session.closed
    ensures var (session, r) := Finish(s, input, cfg);
            if r.Err? then FromSurroundings(r.error)
            else |r.value| <= 2 && session.closed && session.lastSequence == s.session.lastSequence
  {
  }

  // ---- What each end notices, in any state ----

  /** The frames the server lets through are exactly those the session has no complaint about. */
  lemma AcceptableIff(s: System, frame: seq<byte>, input: RollingSession.Input, cfg: Config)
    requires SessionAt(s.session, s.sequence, s.bytesReceived) && !s.session.closed && input.inTime
    ensures var r := Push(s, frame, s.sequence + 1, input, cfg).1;
            Acceptable(s, frame, cfg) <==> r.Err? ==> FromSurroundings(r.error)
  {
  }

  /** The message a server that has dealt with `s.sequence` frames can go on with. */
  ghost predicate IsNextMessage(s: System, m: ToServer, cfg: Config) {
    match m
    case Binary(value) =>
      s.sequence + 1 < SEQUENCE_LIMIT &&
      exists frame :: value == Encode(s.sequence + 1, frame) && Acceptable(s, frame, cfg)
    case End(n) => n == s.sequence + 1
  }

  /** The server stops on every other message, and on no message of that kind. */
  lemma ServerStopsIff(s: System, t: System, input: RollingSession.Input, cfg: Config)
    requires !s.violation && Open(s) && ServerReceives(s, t, input, cfg)
    ensures t.violation <==> !IsNextMessage(s, s.toServer[0], cfg)
    ensures t.violation ==> t.serverDone && t.emitted == s.emitted && t.toClient == s.toClient
  {
    match s.toServer[0]
    case Binary(value) =>
      NextFrameParses(s, value, cfg);
      var parsed := ParseBinaryFrame(value, s.sequence + 1);
      if parsed.Ok? {
        PushAnswersOrStops(s, parsed.value.1, input, cfg);
      }
    case End(n) =>
      FinishAnswers(s, input, cfg);
  }

  lemma NextFrameParses(s: System, value: seq<byte>, cfg: Config)
    ensures IsNextMessage(s, Binary(value), cfg) <==>
              var parsed := ParseBinaryFrame(value, s.sequence + 1);
              parsed.Ok? && Acceptable(s, parsed.value.1, cfg)
  {
    if ParseBinaryFrame(value, s.sequence + 1).Ok? {
      ParsedIsEncoded(value, s.sequence + 1);
    }
    if IsNextMessage(s, Binary(value), cfg) {
      var frame :| value == Encode(s.sequence + 1, frame) && Acceptable(s, frame, cfg);
      FramingRoundTrips(s.sequence + 1, frame, s.sequence + 1);
    }
  }

  lemma PushAnswersOrStops(s: System, frame: seq<byte>, input: RollingSession.Input, cfg: Config)
    requires Open(s)
    ensures Acceptable(s, frame, cfg) ==>
              var r := Push(s, frame, s.sequence + 1, input, cfg).1;
              r.Err? ==> FromSurroundings(r.error)
  {
    if Acceptable(s, frame, cfg) {
      PushAnswers(s, frame, input, cfg);
    }
  }

  /** The answer that closes the operation the client has under way. */
  predicate Closes(client: ClientPhase, m: ToClient) {
    (client.AwaitingAck? && m.Ack? && m.ackSequence == client.ackFor) ||
    (client.AwaitingFinished? && m.Finished? && m.finishedSequence == client.finishFor)
  }

  /** The client takes an update while it has room for one, and the answer to its own operation; it
      stops on everything else. */
  lemma ClientStopsIff(s: System, t: System)
    requires !s.violation && ClientReceives(s, t)
    ensures var m := s.toClient[0];
            t.violation <==> !Closes(s.client, m) && (!m.Note? || |Collected(s.client)| >= 4)
    ensures Closes(s.client, s.toClient[0]) ==>
              t.nextSequence == s.nextSequence + 1 && t.delivered == s.delivered + Collected(s.client) &&
              t.client == if s.client.AwaitingAck? then Idle else Done
    ensures !Closes(s.client, s.toClient[0]) ==> t.delivered == s.delivered && t.nextSequence == s.nextSequence
  {
  }

  // ---- The invariant ----

  /** Updates on their way to the client, in order. */
  function InFlight(messages: seq<ToClient>): seq<Update> {
    if messages == [] then []
    else (if messages[0].Note? then [messages[0].update] else []) + InFlight(messages[1..])
  }

  /** The reply to the operation under way: its updates, then the closing message. */
  ghost predicate Reply(messages: seq<ToClient>, closing: ToClient) {
    messages != [] && messages[|messages| - 1] == closing && forall i :: 0 <= i < |messages| - 1 ==> messages[i].Note?
  }

  /** No frame is empty, so the number of frames is bounded by the bytes received. */
  ghost predicate Counts(s: System, cfg: Config) {
    s.session.lastSequence <= s.bytesReceived <= cfg.limits.maxSessionBytes
  }

  ghost predicate NothingLost(s: System) {
    s.delivered + Collected(s.client) + InFlight(s.toClient) == s.emitted
  }

  ghost predicate Quiet(s: System) {
    s.toServer == [] && s.toClient == []
  }

  /** The server has dealt with every frame and waits. */
  ghost predicate Open(s: System) {
    !s.serverDone && !s.session.closed && SessionAt(s.session, s.sequence, s.bytesReceived)
  }

  /** The server has answered the end. */
  ghost predicate Ended(s: System) {
    s.serverDone && s.session.closed && s.sequence == s.session.lastSequence + 1
  }

  ghost predicate OnTheWay(s: System, n: nat, cfg: Config) {
    s.sequence == n - 1 && n < SEQUENCE_LIMIT &&
    exists frame :: s.toServer == [Binary(Encode(n, frame))] && Acceptable(s, frame, cfg)
  }

  /** Where the three counters stand in each phase of an operation. */
  ghost predicate InLockStep(s: System, cfg: Config) {
    match s.client
    case Idle =>
      Quiet(s) && Open(s) && s.sequence == s.nextSequence - 1
    case AwaitingAck(n, collected) =>
      Open(s) && n == s.nextSequence &&
      ((s.toClient == [] && collected == [] && OnTheWay(s, n, cfg)) ||
       (s.toServer == [] && s.sequence == n && Reply(s.toClient, Ack(n)) && |collected| + |s.toClient| <= 2))
    case AwaitingFinished(n, gathered) =>
      n == s.nextSequence &&
      ((s.toClient == [] && gathered == [] && s.sequence == n - 1 && s.toServer == [End(n)] && Open(s)) ||
       (s.toServer == [] && s.sequence == n && Ended(s) && Reply(s.toClient, Finished(n)) &&
        |gathered| + |s.toClient| <= 3))
    case Done =>
      Quiet(s) && Ended(s) && s.sequence == s.nextSequence - 1
  }

  ghost predicate Inv(s: System, cfg: Config) {
    !s.violation && s.nextSequence >= 1 && Counts(s, cfg) && NothingLost(s) && InLockStep(s, cfg)
  }

  lemma {:induction false} InFlightAppend(a: seq<ToClient>, b: seq<ToClient>)
    ensures InFlight(a + b) == InFlight(a) + InFlight(b)
  {
    if a == [] {
      assert a + b == b;
    } else {
      assert (a + b)[0] == a[0] && (a + b)[1..] == a[1..] + b;
      InFlightAppend(a[1..], b);
      var head := if a[0].Note? then [a[0].update] else [];
      assert InFlight(a) == head + InFlight(a[1..]);
      assert InFlight(a + b) == head + InFlight(a[1..] + b);
    }
  }

  lemma {:induction false} InFlightNotes(updates: seq<Update>)
    ensures InFlight(Notes(updates)) == updates
  {
    if updates == [] {
    } else {
      assert Notes(updates)[1..] == Notes(updates[1..]);
      InFlightNotes(updates[1..]);
    }
  }

  lemma ReplyContents(updates: seq<Update>, closing: ToClient)
    requires !closing.Note?
    ensures InFlight(Notes(updates) + [closing]) == updates && Reply(Notes(updates) + [closing], closing)
  {
    InFlightAppend(Notes(updates), [closing]);
    InFlightNotes(updates);
    assert InFlight([closing]) == [];
    assert updates + [] == updates;
  }

  lemma SendPreserves(s: System, t: System, frame: seq<byte>, cfg: Config)
    requires Inv(s, cfg) && ClientSends(s, t, frame, cfg) && cfg.limits.maxSessionBytes < SEQUENCE_LIMIT
    ensures Inv(t, cfg)
  {
    assert t.toServer == [Binary(Encode(s.nextSequence, frame))];
    assert Acceptable(t, frame, cfg);
  }

  lemma EndPreserves(s: System, t: System, cfg: Config)
    requires Inv(s, cfg) && ClientEnds(s, t)
    ensures Inv(t, cfg)
  {
    assert t.toServer == [End(s.nextSequence)];
  }

  /** While an answer is due and none has been given, nothing is collected or in flight. */
  lemma NothingCollected(s: System)
    requires NothingLost(s) && s.toClient == [] && Collected(s.client) == []
    ensures s.emitted == s.delivered
  {
    assert s.delivered + [] + [] == s.delivered;
  }

  /** The reply that follows a session's answer loses nothing. */
  lemma AnswerLosesNothing(s: System, t: System, updates: seq<Update>, closing: ToClient)
    requires s.emitted == s.delivered && s.toClient == [] && Collected(s.client) == [] && !closing.Note?
    requires t.client == s.client && t.delivered == s.delivered && t.emitted == s.emitted + updates
    requires t.toClient == s.toClient + Notes(updates) + [closing]
    ensures NothingLost(t) && t.toClient == Notes(updates) + [closing] && Reply(t.toClient, closing) &&
            |t.toClient| == |updates| + 1
  {
    assert [] + Notes(updates) + [closing] == Notes(updates) + [closing];
    ReplyContents(updates, closing);
    assert s.delivered + [] + updates == s.delivered + updates;
  }

  /** A message for the server while an acknowledgement is due is the frame on its way. */
  lemma FrameIsWaiting(s: System, cfg: Config) returns (frame: seq<byte>)
    requires InLockStep(s, cfg) && s.client.AwaitingAck? && s.toServer != []
    ensures s.toClient == [] && s.client.collected == [] && Open(s)
    ensures s.sequence + 1 < SEQUENCE_LIMIT && s.client.ackFor == s.sequence + 1
    ensures s.toServer == [Binary(Encode(s.sequence + 1, frame))] && Acceptable(s, frame, cfg)
  {
    frame :| s.toServer == [Binary(Encode(s.client.ackFor, frame))] && Acceptable(s, frame, cfg);
  }

  lemma ServerOnFrame(s: System, t: System, input: RollingSession.Input, cfg: Config)
    requires Inv(s, cfg) && ServerReceives(s, t, input, cfg) && s.client.AwaitingAck?
    ensures Inv(t, cfg)
  {
    var frame := FrameIsWaiting(s, cfg);
    FramingRoundTrips(s.sequence + 1, frame, s.sequence + 1);
    assert ServerPushes(s, t, s.sequence + 1, frame, input, cfg);
    PushAnswers(s, frame, input, cfg);
    NothingCollected(s);
    AnswerLosesNothing(s, t, Push(s, frame, s.sequence + 1, input, cfg).1.value, Ack(s.sequence + 1));
  }

  lemma ServerOnEnd(s: System, t: System, input: RollingSession.Input, cfg: Config)
    requires Inv(s, cfg) && ServerReceives(s, t, input, cfg) && s.client.AwaitingFinished?
    ensures Inv(t, cfg)
  {
    assert s.toServer == [End(s.sequence + 1)] && Open(s);
    assert ServerFinishes(s, t, input, cfg);
    FinishAnswers(s, input, cfg);
    NothingCollected(s);
    AnswerLosesNothing(s, t, Finish(s, input, cfg).1.value, Finished(s.sequence + 1));
  }

  lemma NoteMoves(delivered: seq<Update>, collected: seq<Update>, u: Update, rest: seq<ToClient>)
    ensures delivered + collected + InFlight([Note(u)] + rest) == delivered + (collected + [u]) + InFlight(rest)
  {
    assert ([Note(u)] + rest)[1..] == rest;
    assert delivered + collected + ([u] + InFlight(rest)) == delivered + (collected + [u]) + InFlight(rest);
  }

  lemma ClosingCarriesNothing(delivered: seq<Update>, collected: seq<Update>, closing: ToClient)
    requires !closing.Note?
    ensures delivered + collected + InFlight([closing]) == (delivered + collected) + [] + InFlight([])
  {
  }

  /** Taking a message off the channel moves an update to the client, or closes the operation. */
  lemma ReceivingLosesNothing(s: System, t: System, cfg: Config)
    requires Inv(s, cfg) && ClientReceives(s, t)
    ensures NothingLost(t)
  {
    var m, rest := s.toClient[0], s.toClient[1..];
    assert s.toClient == [m] + rest;
    if m.Note? {
      NoteMoves(s.delivered, Collected(s.client), m.update, rest);
    } else {
      assert rest == [];
      ClosingCarriesNothing(s.delivered, Collected(s.client), m);
    }
  }

  lemma ReceivingKeepsStep(s: System, t: System, cfg: Config)
    requires Inv(s, cfg) && ClientReceives(s, t)
    ensures !t.violation && InLockStep(t, cfg)
  {
    var m, rest := s.toClient[0], s.toClient[1..];
    assert s.toClient == [m] + rest;
  }

  lemma StepPreserves(s: System, t: System, cfg: Config)
    requires Inv(s, cfg) && Next(s, t, cfg) && cfg.limits.maxSessionBytes < SEQUENCE_LIMIT
    ensures Inv(t, cfg)
  {
    if frame :| ClientSends(s, t, frame, cfg) {
      SendPreserves(s, t, frame, cfg);
    } else if ClientEnds(s, t) {
      EndPreserves(s, t, cfg);
    } else if input :| ServerReceives(s, t, input, cfg) {
      if s.client.AwaitingAck? {
        ServerOnFrame(s, t, input, cfg);
      } else {
        ServerOnEnd(s, t, input, cfg);
      }
    } else {
      ReceivingLosesNothing(s, t, cfg);
      ReceivingKeepsStep(s, t, cfg);
    }
  }

  /** Main result: in every run, whatever the interleaving of the two ends, no protocol error is
      ever noticed and the counters stay in lock step. */
  lemma {:induction false} RunsStayInLockStep(run: seq<System>, cfg: Config, i: nat)
    requires IsRun(run, cfg) && cfg.limits.maxSessionBytes < SEQUENCE_LIMIT && i < |run|
    ensures Inv(run[i], cfg)
  {
    if i == 0 {
      assert run[0] == START;
    } else {
      RunsStayInLockStep(run, cfg, i - 1);
      assert StepAt(run, cfg, i);
      StepPreserves(run[i - 1], run[i], cfg);
    }
  }

  /** At every acknowledgement all three counters agree, and the client has received exactly the
      updates the session has given out, in order. */
  lemma CountersAgreeWhenIdle(run: seq<System>, cfg: Config, i: nat)
    requires IsRun(run, cfg) && cfg.limits.maxSessionBytes < SEQUENCE_LIMIT && i < |run| && run[i].client.Idle?
    ensures run[i].nextSequence - 1 == run[i].sequence == run[i].session.lastSequence
    ensures run[i].delivered == run[i].emitted
  {
    RunsStayInLockStep(run, cfg, i);
    NothingCollected(run[i]);
  }

  /** When the client is done it has received every update, and the end matched the server. */
  lemma CompleteWhenDone(run: seq<System>, cfg: Config, i: nat)
    requires IsRun(run, cfg) && cfg.limits.maxSessionBytes < SEQUENCE_LIMIT && i < |run| && run[i].client.Done?
    ensures run[i].session.closed && run[i].sequence == run[i].nextSequence - 1 && run[i].delivered == run[i].emitted
  {
    RunsStayInLockStep(run, cfg, i);
    NothingCollected(run[i]);
  }

  /** The client's limit on updates per operation is never reached, because the session gives at most
      one update for a frame and at most two at the end. */
  lemma UpdateLimitNeverTrips(run: seq<System>, cfg: Config, i: nat)
    requires IsRun(run, cfg) && cfg.limits.maxSessionBytes < SEQUENCE_LIMIT && i < |run|
    ensures |Collected(run[i].client)| <= 2 < MAX_UPDATES_PER_OPERATION
  {
    RunsStayInLockStep(run, cfg, i);
  }

  /** Nothing is ever stuck: while an operation is open some end can act. */
  lemma SomeEndCanAct(s: System, cfg: Config) returns (t: System)
    requires Inv(s, cfg) && (s.client.AwaitingAck? || s.client.AwaitingFinished?)
    ensures Next(s, t, cfg)
  {
    if s.toClient != [] {
      t := ClientCanReceive(s, cfg);
    } else {
      t := ServerCanAnswer(s, cfg);
    }
  }

  lemma ClientCanReceive(s: System, cfg: Config) returns (t: System)
    requires Inv(s, cfg) && (s.client.AwaitingAck? || s.client.AwaitingFinished?) && s.toClient != []
    ensures ClientReceives(s, t)
  {
    var rest, m := s.(toClient := s.toClient[1..]), s.toClient[0];
    t := if m.Note? then rest.(client := WithUpdate(s.client, m.update))
         else if s.client.AwaitingAck?
         then rest.(client := Idle, nextSequence := s.nextSequence + 1, delivered := s.delivered + s.client.collected)
         else rest.(client := Done, nextSequence := s.nextSequence + 1, delivered := s.delivered + s.client.gathered);
  }

  /** With a quiet decoder and a transcription that yields nothing the server can always answer. */
  lemma ServerCanAnswer(s: System, cfg: Config) returns (t: System)
    requires Inv(s, cfg) && (s.client.AwaitingAck? || s.client.AwaitingFinished?) && s.toClient == []
    ensures exists input :: ServerReceives(s, t, input, cfg)
  {
    var input := RollingSession.Input(true, Some([]), RollingSession.Failed);
    if s.client.AwaitingAck? {
      var n := s.client.ackFor;
      var frame :| s.toServer == [Binary(Encode(n, frame))] && Acceptable(s, frame, cfg);
      FramingRoundTrips(n, frame, n);
      var (session, r) := Push(s, frame, n, input, cfg);
      t := s.(toServer := s.toServer[1..], bytesReceived := s.bytesReceived + |frame|, sequence := n,
              session := session,
              emitted := s.emitted + r.value, toClient := s.toClient + Notes(r.value) + [Ack(n)]);
    } else {
      var (session, r) := Finish(s, input, cfg);
      t := s.(toServer := s.toServer[1..], sequence := s.sequence + 1, serverDone := true, session := session,
              emitted := s.emitted + r.value, toClient := s.toClient + Notes(r.value) + [Finished(s.sequence + 1)]);
    }
    assert ServerReceives(s, t, input, cfg);
  }
}
