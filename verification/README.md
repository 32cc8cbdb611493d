# Verification of the call-analysis core

A Dafny model of the parts of the call-analysis system whose correctness is not evident from
reading them, with proofs of what they promise.

* **Speech metrics** (`EditDistance`, `TranscriptOrder`, `TranscriptErrors`, `SpeechIntervals`, `SpeakerMapping`,
  `Diarization`). The word error table, the corpus and per-role error rates, the midpoint sweep over
  segment boundaries, the exhaustive speaker mapping, the diarization error rate and the role
  accuracy. Sampling is proved exact, the table and the mapping optimal, and the two time metrics
  are linked by an inequality. Times are reals.
* **Streaming speech** (`OggStream`, `RollingSession`, `RollingUpdates`, `StreamProtocol`). The incremental Ogg page
  validator, which accepts exactly complete logical streams under any cutting into frames; the
  bounded PCM session with its cadence and budgets; the two-party protocol, a state machine over a
  reliable ordered channel.
* **Agent runtime** (`AgentContracts`, `EventLog`, `AgentTools`, `AgentLog`, `AgentCourse`, `AgentRuntime`).
  The hash-chained lifecycle log, call validation and authorization, and the whole bounded run. The
  replies of the model, what each tool call comes to, the clock and the acceptance of the output are
  parameters; the schedule of parallel tools, recording times and cancellation are arbitrary choices,
  so that `AgentRuntime.Run` speaks about every run. `AgentCourse` says in terms of the parameters
  alone how far a run gets and why it stops.
* **Gateway** (`CircuitBreaker`, `RetryClient`, `RetryProbes`). The breaker and the retry client, a
  state machine over all interleavings of concurrent calls, and the probes of the half-open breaker.
* **Batch attribution** (`Transcript`, `TimestampRepair`, `SpeakerAttribution`, `RoleResolving`,
  `RoleMeaning`, `BatchEngine`). From recognised words to the snapshot, up to the theorem that the strict snapshot
  validator cannot reject what the engine builds.
* **Admission** (`AdmissionControl`), **repeated secrets** (`RepeatedSequence`), **content digest**
  (`DigestFraming`).

`Common`, `Outcomes`, `Bytes` and `TextOrder` hold shared definitions. Code that works step by step is
modelled by methods with loops and classes with fields, tied by their postconditions to the
functions the lemmas are about. A state machine step is one stretch of code between two suspension points.
`dafny verify dfyconfig.toml` checks everything.

## Properties that hold only under a condition

* `_stable_updates` compares lengths only, so that committed text is not prefix-monotone
  (`RollingSession.CommitCanReplace`); `RollingSession.CommitExtendsIff` says exactly when it is.
* `ResilientModelClient.complete` records nothing on a non-retryable error, on its deadline exits and
  on cancellation. The half-open lease then stays held (`RetryClient.LeaseStaysBehindIff`) and the
  gateway can refuse every later call (`RetryClient.WedgeIsReachable`, `RetryClient.WedgedForGood`).
* `_stream` gives its lease back on every exit but one: when the wrapped client itself reports an open
  circuit it records neither a failure nor an abort (`RetryClient.StreamsReturnLeases`,
  `RetryClient.StreamCanKeepLease`). The provider the gateway wraps in production never reports that;
  the run needs another client, which the `ModelClient` protocol allows.
* One half-open probe at a time: `record_aborted` and late results act on a lease another call holds,
  so that a second probe can start while the first is out (`RetryProbes.TwoProbesAtOnce`).
  `RetryProbes.OneProbeAtATimeIff` says exactly when a run has one probe at a time, and
  `RetryProbes.TakesAwayIff` which steps take a lease away. `RetryProbes.AloneWhileHalfOpenIff` is about
  all admitted calls, old ones included (`RetryProbes.OldCallIsNoProbe`).
* Timestamp repair restarts at zero for every segment, so that order across segments is a hypothesis
  of attribution (`TimestampRepair.RepairCanGoBack`); `TimestampRepair.OrderAcrossSegments` and
  `BatchEngine.RepairedIsTranscribableIff` say exactly which recogniser times meet it.
* The corpus word error rate is documented as independent of segment identifiers; they break ties
  between simultaneous segments (`TranscriptOrder.IdentifiersDecideTies`).
  `TranscriptOrder.IdentifiersDoNotMatterIff` says exactly when they do not.

## Model

| member | source | states |
|---|---|---|
| EditDistance.WordErrorCounts | scripts/evaluate_speech.py:52-72 | the counts of the filled table are attained by some alignment of reference and hypothesis and are lexicographically least (cost, substitutions, deletions, insertions) over all alignments; no alignment makes fewer errors |
| EditDistance.FillRow | scripts/evaluate_speech.py:60-70 | one pass of the inner loop fills a row in place with the values of the recurrence and leaves every other row as it was |
| EditDistance.CellIsLeastTally | scripts/evaluate_speech.py:60-70 | the recurrence, which looks only at the diagonal when the words are equal, yields the least tally over all alignments |
| EditDistance.LeastMeaning | scripts/evaluate_speech.py:65-72 | in plain numbers: no alignment has fewer errors, none with as many has fewer substitutions, and then deletions and insertions are fixed by the lengths |
| EditDistance.ColumnTally | scripts/evaluate_speech.py:62-69 | what one more column adds: nothing for equal words, otherwise one error of its own kind |
| EditDistance.PairingEqualWords | scripts/evaluate_speech.py:62-64 | when both last words are equal, every alignment is matched or beaten by one that pairs them: skipping the other two neighbours loses nothing |
| EditDistance.CostZeroIffEqual | scripts/evaluate_speech.py:52-72 | no error exactly when the two word lists are equal |
| EditDistance.CellBalance | scripts/evaluate_speech.py:71-72 | reference words minus deletions equals hypothesis words minus insertions, and the cost is the sum of the three counts |
| EditDistance.CellSwap | scripts/evaluate_speech.py:52-72 | exchanging the arguments exchanges deletions and insertions and keeps the rest, tie-breaks included |
| EditDistance.TriangleInequality | scripts/evaluate_speech.py:52-72 | the cost through a third text is never less than the direct cost |
| TranscriptErrors.CorpusWer | scripts/evaluate_speech.py:75-82 | least alignment counts of the two time-ordered token streams, whatever the listing order |
| TranscriptOrder.TimeOrderIgnoresListing | scripts/evaluate_speech.py:85-86 | with unique identifiers the time order depends only on which segments there are |
| TranscriptOrder.TimeOrderMeaning | scripts/evaluate_speech.py:85-86 | the order is by start, then end, then identifier, and neither adds nor loses a segment |
| TranscriptOrder.IdentifiersDoNotMatterIff | scripts/evaluate_speech.py:75-86 | for distinct identifiers: the compared text is the same under every renaming that keeps them apart if and only if the token lists of any two segments that begin and end together commute |
| TranscriptOrder.IdentifiersDecideTies | scripts/evaluate_speech.py:76-86 | an input on which the promise of the docstring fails: two simultaneous segments whose renaming swaps the compared text |
| TranscriptErrors.SpeakerAttributedWer | scripts/evaluate_speech.py:139-150 | refused unless every label is a public role; otherwise the sum of the least alignment counts per role, over exactly the words of the reference |
| TranscriptErrors.EveryWordHasARole | scripts/evaluate_speech.py:139-150 | with public roles only, each reference word is counted for one role and no word is lost |
| TranscriptErrors.AttributedZeroIffSame | scripts/evaluate_speech.py:139-150 | no error exactly when each role says the same words in the same order |
| SpeechIntervals.Boundaries | scripts/evaluate_speech.py:202-204 | the strictly increasing list of exactly the end points that occur |
| SpeechIntervals.ActiveIsConstant | scripts/evaluate_speech.py:95-98 | at every instant of an elementary interval the same speakers are active as at its midpoint |
| SpeechIntervals.SampledStep | scripts/evaluate_speech.py:94-111 | one turn of the sweep, midpoint and duration as in the loop, extends the integral by one boundary |
| SpeechIntervals.UnionIsSampled | scripts/evaluate_speech.py:94-99 | integrating `someone is active` by midpoints gives exactly the length of the union of the segments |
| SpeakerMapping.OverlapTable | scripts/evaluate_speech.py:220-229 | the table holds, for every pair of labels, the time both are active |
| SpeakerMapping.PermutationsAreSound | scripts/evaluate_speech.py:234 | every assignment tried takes its labels from the padded list without repetition |
| SpeakerMapping.PermutationsAreComplete | scripts/evaluate_speech.py:234 | every assignment that takes its labels from the padded list is tried |
| SpeakerMapping.SomeArrangementIsAsGood | scripts/evaluate_speech.py:231-239 | any injective partial map, into any labels, is matched or beaten by one of the assignments tried: the padding loses nothing |
| SpeakerMapping.BestArrangement | scripts/evaluate_speech.py:232-243 | the loop keeps an assignment no other one tried scores above |
| SpeakerMapping.OptimalSpeakerMapping | scripts/evaluate_speech.py:211-243 | up to eight labels a side the mapping is injective and has the greatest total overlap over all injective partial maps; above, the request is refused |
| SpeakerMapping.ScoreIsAgreement | scripts/evaluate_speech.py:235-239 | the score summed from the table is the time during which mapped pairs speak together |
| Diarization.DiarizationErrorRate | scripts/evaluate_speech.py:89-120 | fails exactly without an interval, with too many labels or without reference speech; otherwise the report has the exact miss, false alarm and reference times, and confusion equal to answered reference time minus the greatest agreement of any injective map |
| Diarization.Sweep | scripts/evaluate_speech.py:94-111 | one pass over the intervals accumulates the four integrals, with the program's branches for silence on either side |
| Diarization.InstantMeaning | scripts/evaluate_speech.py:99-110 | how an instant counts: every reference speaker is missed, confused or matched, missed in silence only, and every hypothesis speaker beyond their number is a false alarm |
| Diarization.ConfusionIsUnmappedTime | scripts/evaluate_speech.py:106-110 | under an injective map confusion is the answered reference time minus the agreement of the map |
| Diarization.OptimalLeavesLeastConfusion | scripts/evaluate_speech.py:93-110 | no injective map gives less confusion than the chosen one |
| Diarization.ReportIsUnique | scripts/evaluate_speech.py:89-120 | ties between mappings do not matter: every optimal map gives the same report |
| Diarization.ReferenceTimeIsConserved | scripts/evaluate_speech.py:94-120 | reference time = miss + confusion + time mapped correctly |
| Diarization.HypothesisTimeIsConserved | scripts/evaluate_speech.py:94-120 | hypothesis time = false alarm + time that could be paired with reference speakers |
| Diarization.ReferenceTimeIsExact | scripts/evaluate_speech.py:95-100 | reference time is the sum over labels of the length of the union of that label's segments |
| Diarization.ReorderingKeepsReport | scripts/evaluate_speech.py:89-120 | the report depends only on which segments there are, not on their order or repetition |
| Diarization.ReorderingKeepsFailure | scripts/evaluate_speech.py:89-120 | nor does the failure depend on the order or repetition of segments |
| Diarization.RenamingKeepsReport | scripts/evaluate_speech.py:89-120 | an injective renaming of the hypothesis labels leaves the whole report unchanged |
| Diarization.RenamingKeepsFailure | scripts/evaluate_speech.py:89-120 | and whether there is a report, and which failure otherwise, is unchanged as well |
| Diarization.RelabelledCopyScoresZero | scripts/evaluate_speech.py:89-120 | a copy of the reference under other names scores zero in every component |
| Diarization.TimeWeightedRoleAccuracy | scripts/evaluate_speech.py:123-136 | refused for labels that are not public roles or without reference speech; otherwise shared time over reference time |
| Diarization.AccuracyIsAShare | scripts/evaluate_speech.py:123-136 | between 0 and 1, and 1 exactly when every reference role is covered at every instant |
| Diarization.ErrorWithinInaccuracy | scripts/evaluate_speech.py:89-136 | miss + confusion is at most (1 - role accuracy) times reference time |
| OggStream.OggLogicalStreamValidator.Feed | services/speech/streaming.py:69-101 | output, fields and failure are those of draining whole pages from pending plus payload, with the program's two early rejections |
| OggStream.OggLogicalStreamValidator.CheckPage | services/speech/streaming.py:107-132 | accepts and updates exactly as the page rules say, and on rejection leaves the fields alone |
| OggStream.OggLogicalStreamValidator.Finish | services/speech/streaming.py:103-105 | succeeds exactly with an empty buffer after at least one page and a page marked last |
| OggStream.PageLayout | services/speech/streaming.py:79-95 | where each field of a page stands (section 6 of RFC 3533) |
| OggStream.FlagsAreMasks | services/speech/streaming.py:107-132 | continued, first and last page are the bits 0x01, 0x02 and 0x04 of the header type, and any other bit is unknown |
| Bytes.LittleEndianDigits | services/speech/streaming.py:93-94 | serial and sequence are read so that byte i of four is digit i to the base 256, least significant first |
| Bytes.LittleEndianRoundTrip | services/speech/streaming.py:93-94 | reading the four digits of any number below 2^32 gives the number back |
| OggStream.DrainConserves | services/speech/streaming.py:74-101 | output followed by pending bytes is the input, failed or not |
| OggStream.UnfinishedPageIsShort | services/speech/streaming.py:76-91 | the page-size rejection cannot occur, and bytes that do not yet form a page are fewer than 65307 |
| OggStream.PendingLimitNeverRejects | services/speech/streaming.py:70-73 | after a successful feed that does not end the stream fewer than 65307 bytes are pending, and no next frame within the frame bound is refused for size |
| OggStream.FeedIsChunkInvariant | services/speech/streaming.py:69-101 | feeding a + b and feeding a then b give the same output and the same fields; the one direction always, the other when a + b is within the bound |
| OggStream.SessionConserves | services/speech/streaming.py:69-101 | over a whole session output and pending bytes together are all input |
| OggStream.SessionIsOneDrain | services/speech/streaming.py:69-101 | a session of non-empty frames within the bound behaves like one drain of the concatenated input |
| OggStream.DecodeFront | services/speech/streaming.py:76-91 | every page the parser completes is the encoding of a well-formed page (section 6 of RFC 3533) |
| OggStream.InspectEncoded | services/speech/streaming.py:76-95 | an encoded page is found whole at the front of any bytes, with its fields where the validator reads them |
| OggStream.AcceptsExactlyLogicalStreams | services/speech/streaming.py:58-132 | under any cutting into frames a session succeeds exactly when the input is one complete logical stream: first page BOS with OpusHead, one serial, page k numbered k modulo 2^32, EOS on the last page only; and then everything has been passed on |
| OggStream.FirstOutputHoldsOpusHead | services/speech/streaming.py:511-527 | the first validated bytes hold the OpusHead marker (section 5.1 of RFC 7845) |
| OggStream.StuckStays | services/speech/streaming.py:69-101 | once a drain has failed, or bytes follow the last page, every later call fails too |
| OggStream.OpusDecodePath.Decode | services/speech/streaming.py:511-527 | the decoder is given exactly the validated bytes; the header-overflow and missing-header branches cannot be reached, also after a failed call |
| OggStream.OpusDecodePath.FinishDecoder | services/speech/streaming.py:529-536 | finishing fails only when the validator does; the missing-header branch cannot be reached |
| RollingSession.RingStep | services/speech/streaming.py:541-545 | appending and trimming the ring is the same as trimming all audio heard so far: the ring is always its last window |
| RollingSession.CommonPrefix | services/speech/streaming.py:614-620 | a common prefix of both texts that cannot be extended |
| RollingSession.LongestCommonPrefixIsGreatest | services/speech/streaming.py:614-620 | every other common prefix is a prefix of it |
| RollingSession.RollingStreamingSession.Push | services/speech/streaming.py:456-466 | the fields after the call and its result are those of `Pushed`, which the lemmas below characterise: refusals before anything changes, then the frame's audio is consumed |
| RollingSession.RollingStreamingSession.ConsumePcm | services/speech/streaming.py:538-551 | fields and result are those of `Consume`: a transcription is considered exactly when forced or when a full step has accumulated |
| RollingSession.RollingStreamingSession.RollingUpdate | services/speech/streaming.py:553-573 | fields and result are those of `Hear` on the ring: one call exactly when it has energy and both budgets allow it; exhausted when energy met an exceeded budget |
| RollingSession.RollingStreamingSession.StableUpdates | services/speech/streaming.py:575-593 | fields and result are those of `Listen`; which updates that gives over a call and a session is stated by `RollingUpdates.PushGives` and `RollingUpdates.EmittedIsAnnounced` |
| RollingSession.RollingStreamingSession.Finish | services/speech/streaming.py:468-498 | fields and result are those of `Finished`: nothing after close; otherwise the waiting audio is consumed and the last update given is final |
| RollingSession.CallsExactlyWhenDue | services/speech/streaming.py:553-573 | the ring is submitted exactly when it has energy, both budgets allow it and the budget was not given up; the texts grow by the outcome of that call alone; the budget is given up exactly when a worthwhile ring is too expensive |
| RollingSession.PushCallsExactlyWhenDue | services/speech/streaming.py:456-466 | a successful push hears exactly the audio of its frame and submits the last window of all audio exactly when a full step has accumulated and a call is due; texts grow by its outcome alone |
| RollingSession.PushKeeps | services/speech/streaming.py:456-466 | at most one update a push, not final, and it is the first text or the longest common prefix of the last two transcriptions; budgets, cadence and committed length are kept; the committed text is the fold of the commitment rule over all texts heard |
| RollingUpdates.PushGives | services/speech/streaming.py:456-466 | a successful push gives exactly one update when the texts grew and this is the first text or the committed text got longer, with that text and its stability, and otherwise none; a failed one leaves the texts alone |
| RollingSession.FinishCallsExactlyWhenDue | services/speech/streaming.py:468-498 | finishing hears what the decoder still returns and submits the last window exactly when audio is waiting and a call is due |
| RollingSession.FinishKeeps | services/speech/streaming.py:468-498 | none or at most two updates, the last and only the last final, with the text of the last transcription; none exactly when nothing was ever transcribed; calls at most received/step + 1 |
| RollingUpdates.FinishGivesExactly | services/speech/streaming.py:468-498 | nothing exactly when nothing was ever heard; two updates exactly when the last call brought news that differs from the last text; the closing one is stable exactly when something was committed |
| RollingSession.ExhaustedStaysSilent | services/speech/streaming.py:553-573 | after the budget is given up no operation makes a call or hears a text again |
| RollingSession.SessionsStayInBounds | services/speech/streaming.py:456-573 | over every list of frames: less than one step is outstanding, calls times step is at most the audio received, and both budgets are kept |
| RollingSession.SessionsAnnounceInOrder | services/speech/streaming.py:456-593 | over a whole session with its end: stable updates strictly grow in tokens, only the first may be unstable, a final one is given at most once, by the end, last of all and with the text heard last |
| RollingUpdates.EmittedIsAnnounced | services/speech/streaming.py:456-593 | the texts given out over all frames are exactly the first text heard and one for every growth of the committed text, in order |
| RollingUpdates.CommittedIsLongest | services/speech/streaming.py:575-593 | the committed text is the first of the longest prefixes that two consecutive texts agree on |
| RollingUpdates.SampleMeaning | services/speech/streaming.py:607-611 | a sample is the two's complement number whose low byte comes first |
| RollingUpdates.EnergyOfConcat | services/speech/streaming.py:607-611 | audio has energy exactly when one of its parts, cut at a sample, has |
| RollingSession.CommitExtendsIff | services/speech/streaming.py:589-592 | a commit extends the committed text exactly when that text is a prefix of both of the last two texts; the token count grows in any case |
| RollingSession.CommitCanReplace | services/speech/streaming.py:589-592 | four transcriptions in a row after which committed text has been replaced by unrelated text, because only lengths are compared |
| StreamProtocol.FramingRoundTrips | src/mtbank_ai/speech/streaming.py:456-462 | for a sequence below 2^32 and a non-empty frame the encoded message parses back, and is refused for any other expected sequence |
| StreamProtocol.ParsedIsEncoded | src/mtbank_ai/speech/streaming.py:456-462 | every message that parses is the encoding of what was parsed |
| StreamProtocol.ParseIsExact | src/mtbank_ai/speech/streaming.py:456-462 | a message of at most four bytes is invalid, and a longer one parses exactly when its first four bytes are those of the expected sequence |
| Bytes.BigEndianDigits | src/mtbank_ai/speech/streaming.py:342 | byte i of the encoding is the digit of its place to the base 256, most significant first |
| StreamProtocol.AcceptableIff | services/speech/app.py:236-261 | in time, the server loop lets through exactly the frames an open session in step has no complaint about |
| StreamProtocol.ServerStopsIff | services/speech/app.py:232-278 | in any state in step with its session the server goes on with exactly the next frame and the end with the next number, and stops on every other message without an answer |
| StreamProtocol.ClientStopsIff | src/mtbank_ai/speech/streaming.py:375-402 | in any state the client takes an update while it holds fewer than four and the answer to its own operation, which delivers what was collected; it stops on everything else |
| StreamProtocol.PushAnswers | services/speech/app.py:236-261 | a session in step with the server loop answers every frame the loop passes on with at most one update, or fails for a reason of its surroundings |
| StreamProtocol.FinishAnswers | services/speech/app.py:262-278 | an open session answers the end with at most two updates and is closed, or fails for a reason of its surroundings |
| StreamProtocol.StepPreserves | src/mtbank_ai/speech/streaming.py:337-402 | every step of client, channel, server loop and rolling session keeps the lock-step invariant |
| StreamProtocol.RunsStayInLockStep | services/speech/app.py:221-279 | in every reachable state of a run the two ends and the session are in lock step, so no sequence check, bound check and end check ever fails |
| StreamProtocol.CountersAgreeWhenIdle | src/mtbank_ai/speech/streaming.py:337-346 | whenever the client is between two operations the three counters agree and every update emitted has been delivered, in order |
| StreamProtocol.CompleteWhenDone | src/mtbank_ai/speech/streaming.py:355-372 | after the finished message the session is closed, the counters agree and nothing is left undelivered |
| StreamProtocol.UpdateLimitNeverTrips | src/mtbank_ai/speech/streaming.py:387-400 | at most two updates are collected per operation, below the limit of four, because the session gives no more |
| StreamProtocol.SomeEndCanAct | services/speech/app.py:232-279 | while the client waits for an answer some step is possible: the two ends never wait for each other |
| EventLog.LifecycleRecorder.Record | src/mtbank_ai/agent_runtime/events.py:68-102 | appends one event, numbered next and linked to its predecessor; the chain stays unbroken |
| EventLog.LastHashDeterminesLog | src/mtbank_ai/agent_runtime/events.py:105-134 | unless two hashed documents collide, equal last hashes come from equal logs of the same run |
| EventLog.SharedEventSharesHistory | src/mtbank_ai/agent_runtime/events.py:105-134 | two chains that agree on one event hash agree on its position and on everything before it |
| AgentTools.ValidateCalls | src/mtbank_ai/agent_runtime/tools.py:106-139 | all calls or none: accepted exactly when there is a call, identifiers are distinct and unseen, and every call has a known tool and valid arguments; identifiers are remembered only on success; the code is that of the first fault in the program's order |
| AgentTools.AuthorizeIsExact | src/mtbank_ai/agent_runtime/authorization.py:18-51 | accepts exactly batches of declared read-only calls followed by at most one submission, last, after everything required was retrieved; returns its position |
| AgentTools.RefusalIsExact | src/mtbank_ai/agent_runtime/authorization.py:27-49 | an early or repeated submission is reported first; otherwise the first call that is not permitted determines the code |
| AgentRuntime.Run | src/mtbank_ai/agent_runtime/runtime.py:59-321 | for every model, tools, schedule, clock and cancellation: unbroken chain opened by AGENT_STARTED unless rejected before it began; turns in order; each tool call PROPOSED, VALIDATED, ALLOWED, STARTED, then COMPLETED or FAILED at most once; every accepted call is the validated form of the call at its place in the reply of its turn; declared tools only, reads of read-only tools and a submission only after every required retrieval completed in an earlier turn, in failed runs too; nothing after the submission; executed calls, repeats, model calls and remote identifiers within bounds; one ending; a result only for a complete run, with the token totals of the replies; a run that returns met every condition up to an accepted submission, and every other one has a reason that holds of the replies, the calls and the tools at the turn it stopped in and that fixes its code |
| AgentRuntime.GoodRunsReturn | src/mtbank_ai/agent_runtime/runtime.py:119-321 | a run whose replies, calls, tools and clock are in order up to an accepted submission returns its result, unless it is cancelled from outside |
| AgentCourse.GoodRunsDoNotFail | src/mtbank_ai/agent_runtime/runtime.py:119-321 | no reason to fail is compatible with such a course, short of an interruption |
| AgentCourse.CauseIsUnique | src/mtbank_ai/agent_runtime/runtime.py:119-321 | without an interruption the reason, its turn and, but for which of several reads failed first, its code are determined by replies, tools and clock |
| AgentRuntime.CheckStart | src/mtbank_ai/agent_runtime/runtime.py:125-131 | passes exactly with the right policy version, before the deadline, and with a registered terminal tool that submits; the first of these that fails gives the code |
| AgentRuntime.TakeTurns | src/mtbank_ai/agent_runtime/runtime.py:145-321 | at most `max_turns` turns with every whole-log property; ends with the result or for a reason, and after all turns with the missing retrievals reported before the missing submission, as the log tells |
| AgentRuntime.CompleteModel | src/mtbank_ai/agent_runtime/runtime.py:169-181 | one MODEL_REQUESTED, followed by MODEL_FAILED with its code exactly when the failure is a controlled one |
| AgentRuntime.ProposeCalls | src/mtbank_ai/agent_runtime/runtime.py:232-246 | records PROPOSED then VALIDATED for every call of the batch, in batch order, and executes nothing |
| AgentRuntime.AllowCalls | src/mtbank_ai/agent_runtime/runtime.py:253-260 | records ALLOWED for every call of the batch before any of them starts |
| AgentRuntime.ExecuteTerminal | src/mtbank_ai/agent_runtime/runtime.py:286-297 | runs the terminal tool once, after which no other tool may start |
| AgentRuntime.Turn | src/mtbank_ai/agent_runtime/runtime.py:154-317 | a turn that continues leaves variables that agree with the log, with exactly the required tools completed so far as retrieved; it continues exactly as its reply, its calls and the tool outcomes say, and otherwise ends with the result or for its reason |
| AgentRuntime.AskModel | src/mtbank_ai/agent_runtime/runtime.py:155-216 | goes on exactly when the turn may ask and the reply comes from the right model, keeps the totals of all replies within budget and has tool calls; otherwise the reason is the first that applies, in the program's order: model mismatch, budget, text without calls, neither |
| AgentRuntime.CheckTurn | src/mtbank_ai/agent_runtime/runtime.py:155-168 | the model is asked exactly with output tokens left, in time and with all tools registered; the first that fails gives the code |
| AgentRuntime.CheckReply | src/mtbank_ai/agent_runtime/runtime.py:183-216 | a reply is acted on exactly when it is of the right model, within budget and has tool calls, whether or not it has text; the first that fails gives the code |
| AgentRuntime.AcceptCalls | src/mtbank_ai/agent_runtime/runtime.py:218-230 | accepts exactly the batches that pass validation and keep the loop guards; what is accepted is the validated proposal, at the identifiers of its turn; a refused batch is not accepted in part, and its code is that of the first fault or of the loop guard |
| AgentRuntime.ActOnReply | src/mtbank_ai/agent_runtime/runtime.py:218-317 | a usable reply is validated, counted and run; every call accepted so far remains the validated form of a call some reply proposed; if the run does not go on, the reason lies in the batch, the tools or the submission |
| AgentCourse.ExtendFromModel | src/mtbank_ai/agent_runtime/runtime.py:218-230 | adding the validated proposal of a turn keeps every accepted call the validated form of the call at its place in the reply of its turn |
| AgentRuntime.CountCalls | src/mtbank_ai/agent_runtime/runtime.py:222-229 | passes only batches that keep the total and every signature count within bounds, and refuses only batches that would exceed one |
| AgentRuntime.RunCalls | src/mtbank_ai/agent_runtime/runtime.py:231-317 | a batch that is not permitted as a whole executes nothing |
| AgentRuntime.ExecuteReadCalls | src/mtbank_ai/agent_runtime/runtime.py:323-355 | under every schedule of the parallel tools, with failures and one cancellation at any point, also while a failure is being cleaned up, every history stays in order; without a failure every read has completed, and a failure is that of one of the tools or the cancellation |
| AgentRuntime.StepTask | src/mtbank_ai/agent_runtime/runtime.py:357-408 | one step of one tool call: its events follow its stage and no other call's history changes |
| AgentRuntime.CollectRetrieved | src/mtbank_ai/agent_runtime/runtime.py:272-275 | adds exactly the required tools among the completed reads |
| AgentRuntime.CloseRun | src/mtbank_ai/agent_runtime/runtime.py:298-317 | a result is returned only after the terminal output is validated, with the totals of the log |
| AgentRuntime.SubmissionCompletes | src/mtbank_ai/agent_runtime/runtime.py:286-317 | the four closing events make the run complete: submission last and once, retrievals strictly earlier, budgets respected |
| AgentRuntime.Reject | src/mtbank_ai/agent_runtime/runtime.py:96-116 | a failed run ends in AGENT_OUTPUT_REJECTED then RUN_FAILED with one code, and keeps what held before |
| AgentLog.AppendKeepsSafe | src/mtbank_ai/agent_runtime/runtime.py:64-92 | appending any event that may follow keeps every whole-log property |
| AgentLog.ExecutionsAreDistinct | src/mtbank_ai/agent_runtime/runtime.py:357-372 | no call is started twice |
| AgentLog.ExecutionsAreBounded | src/mtbank_ai/agent_runtime/runtime.py:222-229 | executed calls are at most `max_tool_calls`, and those with one signature at most `max_repeated_tool_calls` |
| AgentLog.SignatureIsExact | src/mtbank_ai/agent_runtime/runtime.py:222-229 | calls count as repeats exactly when tool and arguments are the same |
| CircuitBreaker.OperationsKeepConsistency | src/mtbank_ai/agent_runtime/retry.py:75-110 | every operation keeps: failures below the threshold, a lease only when half open, a trip time exactly when not closed |
| CircuitBreaker.AdmissionMeaning | src/mtbank_ai/agent_runtime/retry.py:75-85 | exactly when a call is admitted, and that only a probe's admission changes anything |
| CircuitBreaker.Breaker.Admit | src/mtbank_ai/agent_runtime/retry.py:75-85 | refuses while open within the recovery time and while a probe is out; otherwise admits, taking the lease when half open |
| CircuitBreaker.Breaker.Failure | src/mtbank_ai/agent_runtime/retry.py:93-110 | trips when half open or when the count reaches the threshold, and otherwise counts one more; the lease is released either way |
| CircuitBreaker.Breaker.Aborted | src/mtbank_ai/agent_runtime/retry.py:102-105 | releases the lease only when half open, whoever holds it |
| RetryClient.DelayBounds | src/mtbank_ai/agent_runtime/retry.py:263-274 | a server hint is followed up to its cap; otherwise the delay lies between half the base delay and the maximum, for any random value |
| RetryClient.DelayMeaning | src/mtbank_ai/agent_runtime/retry.py:263-274 | a hint within the cap is followed to the letter; the computed delay starts at the base delay, doubles with every attempt until the cap, and jitter takes away at most half |
| RetryClient.RunsKeepInvariant | src/mtbank_ai/agent_runtime/retry.py:147-243 | over all interleavings of calls the breaker is consistent, permits are conserved, and the lease belongs to an admitted call or to one that left it behind |
| RetryClient.FailuresAreCounted | src/mtbank_ai/agent_runtime/retry.py:75-110 | in every reachable state the count is the number of failures recorded since the last success or trip, below the threshold |
| RetryClient.TripsIff | src/mtbank_ai/agent_runtime/retry.py:93-100 | a recorded failure trips exactly when the breaker is half open or that number reaches the threshold |
| RetryClient.SuccessClears | src/mtbank_ai/agent_runtime/retry.py:87-91 | a success leaves the breaker closed with nothing counted, and no other step logs a success |
| RetryClient.RetriesIff | src/mtbank_ai/agent_runtime/retry.py:147-243 | a broken call tries again exactly for a retryable fault, before a stream has emitted, with attempts left, the breaker admitting it and the delay ending before the deadline; it then sleeps for exactly that delay |
| RetryClient.AttemptsAdvance | src/mtbank_ai/agent_runtime/retry.py:147-243 | attempts go up one at a time, from sleep only, and a call that has left never comes back |
| RetryClient.CallsStayInBounds | src/mtbank_ai/agent_runtime/retry.py:147-243 | free permits plus holders is the concurrency, attempts stay below the maximum, and no sleep reaches the deadline |
| RetryClient.NoEarlyAdmission | src/mtbank_ai/agent_runtime/retry.py:75-85 | between a trip and the next success nothing is admitted within the recovery time |
| RetryClient.StreamsReturnLeases | src/mtbank_ai/agent_runtime/retry.py:147-201 | a stream that has left holds no lease, unless the wrapped client itself reported an open circuit |
| RetryClient.LeaseStaysBehindIff | src/mtbank_ai/agent_runtime/retry.py:204-243 | exactly which steps make a call leave with the lease, on the state before the step: a cancelled or timed-out `complete`, a non-retryable error of it, a retryable one after which it is the probe again but the delay reaches the deadline, and an open circuit reported by the wrapped client of a stream |
| RetryClient.ProbeRetakesIff | src/mtbank_ai/agent_runtime/retry.py:75-110 | a failed probe is admitted as the probe again exactly when the recovery time passes between recording the failure and asking |
| RetryClient.StreamCanKeepLease | src/mtbank_ai/agent_runtime/retry.py:147-201 | a run in which a stream leaves with the lease and nobody is ever admitted again |
| RetryClient.WedgedForGood | src/mtbank_ai/agent_runtime/retry.py:75-85 | with the lease of a departed call held and no admitted call left, no step admits anything or releases it |
| RetryClient.WedgedRun | src/mtbank_ai/agent_runtime/retry.py:75-85 | so a run that is wedged once admits nobody from then on |
| RetryClient.OtherwiseItCanClose | src/mtbank_ai/agent_runtime/retry.py:75-110 | and otherwise, with a lease held and an admitted call left, a path of at most two steps closes the breaker |
| RetryClient.WedgeIsReachable | src/mtbank_ai/agent_runtime/retry.py:226-227 | a run that gets there by one non-retryable error of a probe |
| RetryProbes.AloneWhileHalfOpenIff | src/mtbank_ai/agent_runtime/retry.py:75-105 | throughout a run the lease owner is the only admitted call in every half-open state if and only if no step turns the breaker half open while another call is still admitted |
| RetryProbes.TwoProbesAtOnce | src/mtbank_ai/agent_runtime/retry.py:102-105 | a run that ends with two probes at once, because an old stream is cancelled late |
| RetryProbes.TakesAwayIff | src/mtbank_ai/agent_runtime/retry.py:87-110 | a step of another call takes the lease from its owner exactly when it responds, is a stream being cancelled, or has a failure recorded |
| RetryProbes.OneProbeAtATimeIff | src/mtbank_ai/agent_runtime/retry.py:75-110 | a run has at most one probe at every moment, a probe being a call that took the lease on admission and is still out, if and only if no call becomes the probe while one is out whose lease another call took away |
| RetryProbes.OwnerIsAmongProbes | src/mtbank_ai/agent_runtime/retry.py:75-85 | every admitted owner of the lease is a probe in this sense |
| RetryProbes.OldCallIsNoProbe | src/mtbank_ai/agent_runtime/retry.py:75-85 | a run with one probe at every moment although an old call is still admitted in the half-open state |
| TimestampRepair.RepairIsSeparated | services/speech/adapters.py:163-175 | the repaired words do not overlap, last at least 1 ms, and never begin or end earlier than the input |
| TimestampRepair.RepairIsLeast | services/speech/adapters.py:163-175 | and they are the pointwise least intervals of that kind |
| TimestampRepair.ValidInputIsUnchanged | services/speech/adapters.py:163-175 | input that already meets the condition comes back as it was |
| TimestampRepair.RepairIsIdempotent | services/speech/adapters.py:163-175 | repairing a second time changes nothing |
| TimestampRepair.RepairKeepsWords | services/speech/adapters.py:163-177 | texts stay, and so does exactly a probability in [0, 1] |
| TimestampRepair.RepairWords | services/speech/adapters.py:156-177 | the loop yields the repaired words, or fails on an invalid word text |
| TimestampRepair.WidenedSegmentFits | services/speech/adapters.py:178-189 | the widened segment contains every repaired word and is not empty |
| TimestampRepair.RepairSegment | services/speech/adapters.py:156-189 | succeeds exactly for usable text, words and start, with bounds widened no further than the words need |
| TimestampRepair.OrderAcrossSegments | services/speech/adapters.py:156-189 | the repaired words of all segments are monotone exactly when the recogniser's own times leave room at every junction: the last word of the earlier segment, and everything before it with a millisecond for each word in between, starts before the later segment begins, and all of the earlier one ends before the first word of the later one does |
| TimestampRepair.RepairEndsBy | services/speech/adapters.py:163-175 | repaired words are done by a given time exactly when each word, followed by its successors at one millisecond each, is |
| TimestampRepair.RepairCanGoBack | services/speech/adapters.py:156-189 | two segments with starts in order whose repaired words go back in time |
| SpeakerAttribution.BestSpeakerIgnoresOrder | services/speech/adapters.py:428-453 | the speaker chosen does not depend on the order of the turns |
| SpeakerAttribution.BestSpeakerMeaning | services/speech/adapters.py:428-453 | a turn of greatest rounded overlap, or of least rounded gap when nothing overlaps; the overlap reported is at most the word |
| SpeakerAttribution.TiesAreSettled | services/speech/adapters.py:428-453 | among equally good turns the earliest start decides, then the earliest end, then the least label |
| SpeakerAttribution.OverlapOrGap | services/speech/adapters.py:428-453 | word and turn overlap or lie apart, never both, and the span of the two is their lengths less the overlap plus the gap |
| TextOrder.DictionaryOrder | services/speech/adapters.py:428-453 | labels are compared as in a dictionary |
| SpeakerAttribution.GroupBySpeaker | services/speech/adapters.py:305-315 | the groups are the maximal runs of one speaker |
| SpeakerAttribution.MaximalRunsAreUnique | services/speech/adapters.py:305-315 | there is only one way to cut the words into such runs |
| SpeakerAttribution.Assign | services/speech/adapters.py:298-316 | every word once, in order, in maximal runs; fails without words or when a joined text is too long |
| SpeakerAttribution.SegmentOfIsValid | services/speech/adapters.py:456-467 | a segment made of a run is valid: its words fit, its confidence is in [0, 1] |
| SpeakerAttribution.SegmentMeaning | services/speech/adapters.py:456-467 | from the first to the last word, with the words of the run; confidence times the length of the words is their overlap |
| SpeakerAttribution.TextsJoin | services/speech/adapters.py:456-467 | the text is that of the words in order with a blank between any two |
| SpeakerAttribution.RunsAreOrdered | services/speech/adapters.py:305-316 | segments of monotone words are ordered by start and by end |
| RoleResolving.Candidates | src/mtbank_ai/speech/roles.py:110-128 | one candidate a speaker, in order of first appearance, with that speaker's segments as evidence |
| RoleResolving.ResolveRoles | src/mtbank_ai/speech/roles.py:32-96 | the resolution or failure of `Resolve`, which `RoleMeaning.ResolutionMeaning` and `RoleMeaning.RefusalsAreExact` determine; the speakers are asked in candidate order |
| RoleMeaning.ResolutionMeaning | src/mtbank_ai/speech/roles.py:32-96 | a speaker with a mapping has the role and confidence of its last mapping and all its own segments as evidence; any other has role, confidence and evidence of the agent's entry for it; review exactly on a confidence below 0.75; provenance is the agent's when asked |
| RoleMeaning.RefusalsAreExact | src/mtbank_ai/speech/roles.py:63-91 | the agent's answer is refused exactly when it was needed and breaks a rule; otherwise resolution is missing exactly when a speaker has neither source or the two speakers share a role |
| RoleMeaning.SpeakersInOrder | src/mtbank_ai/speech/roles.py:110-113 | speakers are listed in the order in which they first speak |
| RoleResolving.AssignmentIsGrounded | src/mtbank_ai/speech/roles.py:99-107 | the evidence of every assignment consists of segments of its own speaker |
| RoleResolving.ResolutionIsValid | src/mtbank_ai/speech/roles.py:32-96 | a successful resolution covers every speaker once and passes its validator |
| RoleResolving.ProvenanceIffAgent | src/mtbank_ai/speech/roles.py:84-96 | agent provenance is present exactly when some assignment came from the agent |
| Transcript.ValidateSegmentTimestamps | src/mtbank_ai/domain/transcript.py:137-151 | accepts exactly words monotone in start and end within the segment |
| Transcript.ValidateSegmentOrder | src/mtbank_ai/domain/transcript.py:165-180 | accepts exactly segments ordered by start and end within the audio |
| BatchEngine.AttributionIsReady | services/speech/engine.py:64-97 | attributed runs of monotone words meet everything the snapshot needs, and the ordering check cannot fire |
| BatchEngine.SnapshotIsAccepted | src/mtbank_ai/domain/transcript.py:165-198 | every snapshot built from a successful resolution passes the strict validator |
| BatchEngine.Assemble | services/speech/engine.py:98-143 | the snapshot of the resolved roles, each segment with the words, times, text and speaker attributed and the role assigned to its speaker, accepted by the validator; or the failure of role resolution, which is the only one |
| BatchEngine.AssembledMeaning | services/speech/engine.py:98-143 | field by field: times, text, words and confidence as attributed, UNASSIGNED without a speaker, role and role confidence of the speaker's assignment |
| BatchEngine.Transcribe | services/speech/engine.py:64-143 | without words, or with a run whose text is too long, the failure of attribution; otherwise that of role resolution if it fails; otherwise the accepted snapshot of the maximal runs of one speaker, which keeps every word once in order |
| BatchEngine.TranscriptionIsUnique | services/speech/engine.py:64-143 | this leaves exactly one outcome for each input |
| BatchEngine.RepairedIsTranscribableIff | services/speech/adapters.py:125-189 | the repaired words of all recognised segments are in order and fit the audio, as transcription needs, exactly when the recogniser's own times leave room at every junction and before the end |
| AdmissionControl.RunsKeepInvariant | services/speech/runtime.py:117-237 | over all orders of requests, workers, timeouts, streams and closes the counter counts unreleased reservations and slots are conserved |
| AdmissionControl.OutstandingIsExact | services/speech/runtime.py:190-206 | the counter is within capacity and equals live workers (their callers gone or not) plus streams plus releases to come; slot holders are within the concurrency; each reservation is released once or not yet |
| AdmissionControl.ReleasesIff | services/speech/runtime.py:117-237 | the counter goes up on a reservation and down exactly on the four steps that give one back |
| AdmissionControl.WorkerOutlivesCaller | services/speech/runtime.py:117-149 | a caller that leaves stops no worker and gives nothing back |
| AdmissionControl.EndedWorkerIsSeen | services/speech/runtime.py:117-160 | a worker that ends frees its slot and tells the caller still waiting how it ended; without a caller its release is due |
| AdmissionControl.StepsMoveForward | services/speech/runtime.py:117-149 | every step other than a new reservation or a repeated close brings its reservation closer to release and leaves the others alone |
| AdmissionControl.SomethingCanMove | services/speech/runtime.py:156-160 | as long as a reservation is out such a step is possible: admission never blocks for good |
| AdmissionControl.LazySpeechRuntime.ReserveSlot | services/speech/runtime.py:190-195 | refuses exactly at capacity and otherwise takes the step of the state machine |
| AdmissionControl.LazySpeechRuntime.ReleaseSlot | services/speech/runtime.py:197-199 | gives one reservation back, and its slot when it holds one |
| RepeatedSequence.CommutingWordsShareARoot | src/mtbank_ai/runtime_secrets.py:85-86 | two non-empty words that commute are powers of one common word |
| RepeatedSequence.TestIsExact | src/mtbank_ai/runtime_secrets.py:85-86 | occurring inside its own doubling without the two end characters is the same as being a shorter block written at least twice |
| RepeatedSequence.RepetitionBlockDivides | src/mtbank_ai/runtime_secrets.py:85-86 | the block is proper and its length divides that of the value |
| DigestFraming.ReadContent | scripts/provision_speech_models.py:564-584 | length and content digest of a file, however it is read in chunks |
| DigestFraming.ArtifactContentDigest | scripts/provision_speech_models.py:564-600 | fails on an empty walk or when a count or length does not fit in 64 bits; otherwise the digest of the framed stream without the marker file |
| DigestFraming.FrameLayout | scripts/provision_speech_models.py:585-600 | path length, path, content length, digest, each where it stands; numbers in eight bytes, most significant first |
| DigestFraming.FrameIsPrefixFree | scripts/provision_speech_models.py:585-600 | one frame can be read off the front of any stream |
| DigestFraming.StreamIsUniquelyDecodable | scripts/provision_speech_models.py:585-600 | equal streams come from equal ordered lists of path, length and digest |
| DigestFraming.DigestDeterminesTree | scripts/provision_speech_models.py:564-600 | unless two of the strings hashed collide, the digest fixes every path and every content byte |

## Left out

- HTTP and WebSocket transport, FFmpeg, the file system, the OpenAI SDK adapter, SQL: foreign calls, represented by their outcomes where a state machine needs them.
- The recognition and diarization models, SHA-256, UUID5 and JSON: values and functions given as parameters; digests are assumed free of collisions only on the strings actually hashed.
- Floating-point rounding: times, costs and confidences are exact reals, non-finite values do not occur, and the nine-digit rounding of `_best_speaker` is any monotone function that fixes 0.
- `normalize_tokens`: token sequences are the input of the word error rates; the `rate` property, a quotient, is not modelled.
- Settings validation: limits are parameters; a step of the rolling session is at least one byte, and the session byte bound of the streaming protocol is below 2^32.
- The directory walk and its sorting: the sorted list of files is the input of the content digest.
- The order in which `_optimal_speaker_mapping` sorts labels: the search is proved for every order.
- Texts of segments and updates are word sequences; the encoded length that the update bound looks at is an input.
- The confidence values and evidence texts shown to the role resolver: its decision is an arbitrary input that its validator checks.
- Messages of the agent conversation, observations and tool schemas: the next reply is arbitrary, so their content does not matter; failures of the validators that run while a message or a request is built are not modelled.
- `LifecycleRecorder.record` and `AgentRuntime.Note` are one atomic step with a sink that neither fails nor suspends; payload redaction and the projection of events to trajectory records are left out.
- A second cancellation of a run while it waits for the tool calls it has already cancelled.
- Liveness in wall-clock time: clocks are arbitrary, and only safety and bounds are proved, with absence of deadlock for the protocol and for admission.
- StreamProtocol.RunsStayInLockStep: a run is one in which the session fails for no reason of its surroundings (duration, decoder, half a sample, an update too long) and the client sends only frames within the size bounds; such failures close the connection.
- StreamProtocol.ClientStopsIff: leaves out the client's own bound on the encoded length of an update, because texts are word sequences.
- Telemetry, health endpoints, release evidence, quality scoring, URL and secret-marker checks: flat conditionals or outside the files modelled here.
