# Voice-coaching backend: verified models

A Dafny model of the parts of the voice-coaching backend whose behaviour is fully determined by
their code, with proofs about every input, every run or every interleaving. Verify it with
`dafny verify dfyconfig.toml`.

| module | what it models |
|---|---|
| `EditDistance`, `AsrEval` | the in-place edit distance, the corpus metrics and the release decision |
| `AsrRisk` | split-conformal calibration, the decision made with it, and its coverage guarantee |
| `ByteEncoding` | the byte strings fed to hashes: artifacts, quota keys, restatement fingerprints |
| `OutputGate`, `OutputTurns`, `PcmOutput`, `StrictAudio` | the live output protocol with what a client hears of a turn, the 20 ms framer with its budget, the strict-mode buffer |
| `Clauses`, `Markers`, `AnswerContract`, `AnswerOutcome` | clause splitting, the front move, the marker tables, contract validation, and the outcome read off the inputs |
| `Lease`, `VoiceLive`, `RateLimit` | per-user live leases, the connection handler that releases them, and the request quota |
| `CoachPhrase`, `QuotedSpeech`, `Consent` | normalizing an utterance, stripping quotations, and the consent automata on what is left |
| `IntentBoundaries`, `StubbornStops` | the boundary rewriting loop, and which phrases it can leave a boundary in |
| `ThoughtNodes` | the bounded node list |
| `GuestTrial`, `GuestTrialToken` | the compare-and-set trial ledger, its service, and the encrypted-token machine beside it |
| `Checkpoint` | state normalization, sealing and opening, and the checkpoint transition validator |
| `Common`, `Sequences`, `Text` | shared datatypes, sequence facts, white-space and splitting functions |

Code that updates state is modelled in that form: the gate, the audio buffers, the lease manager,
the counters, the trial store and its service are classes, and each method is proved to take
exactly one step of a specification function; the edit-distance row is an array; scanning and
merging loops are methods with invariants. The theorems are then about the specification functions
over whole runs. Independent references (edit chains, a phrase grammar, counting over sets, decoders)
say what those functions mean.

## Conventions

- Times are integers (nanoseconds in `RateLimit`, microseconds in `GuestTrial`); confidences and
  coverages are reals; strings are sequences of Unicode scalar values; bytes are 0..255.
- A critical section under a mutex is one atomic step. Clocks, random identifiers, socket and
  verifier outcomes, cancelled contexts and the steps of other callers are parameters.
- Encryption, MACs and hashes are ideal functions. Where injectivity or freshness matters it is a
  visible precondition (`NotReused`, the tag hypothesis of `ReplayNeedsTheSameRequest`) or part of the
  model (a connection's random holder token is never drawn twice).
- Phrase tables and patterns are abstract predicates, except the tables of the boundary loop, which
  are written out because termination depends on them, and the markers of the meaning check, which are
  written out because moving clauses cannot cut them.

## What the proofs show about the code

Some properties one might expect do not hold as stated; each has a concrete counterexample and the
exact condition under which the code does have it.

- *Nothing follows a rejection* fails: `commitInput` does not look at the rejected flag, so a
  requested acknowledgement can follow. It holds exactly when no requested acknowledgement is
  outstanding (`NothingFollowsRejectionIff`, `RejectionCanPrecedeAck`).
- *The front move can be repeated* fails for commitments of several clauses. It holds exactly when
  no copy of the block straddles the seam or the gap (`RepeatedMoveIff`, `TwoClauseMoveNeedNotRepeat`).
- *The boundary loop leaves no audited boundary* fails: it searches non-overlapping occurrences. For
  the audit in use, a finished phrase keeps an audited boundary exactly when it holds the same stop
  request said again straight after itself (`LeftoverIff`); `LoopCanLeaveBoundary` is a phrase the
  whole loop leaves unchanged with such a boundary in it. Read off the phrase before the loop runs:
  some audit makes it leave a boundary exactly when the phrase holds a doubled stop that does not go
  on to its polite form (`StubbornIff`). For a given audit that lists both stop requests, every run
  leaves one in each phrase where a stop said three times ends its clause (`TripleAlwaysLeaves`).
  Termination is unaffected.
- *A stale verdict cannot commit* fails without fresh trial ids, because a swept key can be created
  again. With no create dated after the commit, the verdict lands on the record that was verified
  exactly when that record's deadline has not passed at the commit (`StaleVerdictIff`), and past it a
  run with another record exists (`StaleVerdictPossibleIff`; a whole trial later in a store for one).
- *Lease exclusion* fails for some clocks. Every run of the manager with given readings, leases of any
  duration, is exclusive exactly when no reading lies above both an earlier and a later one
  (`ExclusionIff`; a peak at the zero instant itself must be higher by more than one tick, as no lease
  expires usably there). The server's leases all last seven minutes, and its exact condition is the
  weaker one that no reading goes back behind an expiry which an earlier reading has already seen
  (`OverlapIff`); a short step back such as 100, 200, 120 seconds is harmless (`ShortStepBack`).
- *A call whose windows have room and have not gone back is accepted* fails behind a call in the first
  minute or day of the calendar, whose window start is taken for damage. `AcceptedIff` is exact;
  `ZeroInstantSticks` is the input, and from there on nothing is accepted (`StuckForever`).
- *A retired token stays retired* fails behind a clock set back by a whole trial, when the same random
  trial id is drawn again and the store has room for a second trial: among runs whose creates are dated
  from an instant on, a retired token can open again exactly when that instant is not after the start of
  its trial and the capacity is at least two (`RetiredReopensIff`, with the run `TwinRun`).

Besides:

- The newline delimiters of the clause splitter are dead code (`NewlinesAreDead`).
- So are four of the comparisons in the meaning check: condition, cause, polarity and uncertainty markers
  cannot change in a front move (`MarkersAreArrangementFree`). What is left of the uncertainty comparison is
  that an answer without a hedge must not be labelled as a hedged one (`FloorIff`), and such an answer is never
  restructured (`UnhedgedIsNotRestructured`).
- The lower confidence bound for inferred commitments and the three issues named in the last rejecting
  case never decide anything, because earlier tests cover them (`RepairAcceptedIff`, `RejectedIff`).

## Model

| member | source | states |
|---|---|---|
| `EditDistance.Compute` | internal/asreval/evaluator.go:355-374 | the one-row in-place loop returns the length of a shortest chain of single insertions, deletions and substitutions |
| `EditDistance.LevIsDistance` | internal/asreval/evaluator.go:355-374 | for every pair of texts the table entry is reached by an edit chain and beaten by none |
| `EditDistance.Symmetric` | internal/asreval/evaluator.go:355-374 | the distance does not depend on the direction |
| `EditDistance.Triangle` | internal/asreval/evaluator.go:355-374 | the triangle inequality |
| `EditDistance.ZeroExactlyOnEqual` | internal/asreval/evaluator.go:355-374 | zero if and only if the texts are equal |
| `EditDistance.LengthBounds` | internal/asreval/evaluator.go:355-374 | between the length difference and the longer length |
| `AsrEval.FractionIsRatio` | internal/asreval/evaluator.go:389-398 | the rate is the true ratio rounded down to a millionth, and saturates exactly from one upwards or when there is no data |
| `AsrEval.JudgeSample` | internal/asreval/evaluator.go:294-318 | by the name of its bucket a sample counts as no-speech, as quiet (quiet speech and mutter) or as normal, with its shortest-edit error count |
| `AsrEval.CountSamples` | internal/asreval/evaluator.go:281-318 | the single pass counts exactly the order-independent totals of the verdicts |
| `AsrEval.Measure` | internal/asreval/evaluator.go:281-323 | the report describes the samples themselves: rates over the quiet, normal and no-speech samples and error buckets over the speech samples, with shortest edit distances of the normalized texts |
| `AsrEval.ReportDescribes` | internal/asreval/evaluator.go:281-323 | a report on the verdicts is a report on the samples behind them |
| `AsrEval.TotalsAdd` | internal/asreval/evaluator.go:294-317 | one more sample changes the unordered sums exactly as the loop body changes its counters |
| `AsrEval.BucketsPartitionSpeech` | internal/asreval/evaluator.go:305-306 | the four error buckets together count the speech samples |
| `AsrEval.ReportIsConsistent` | internal/asreval/evaluator.go:281-323 | bucket counts add up to the speech samples, and quiet recall is the share of quiet samples outside the miss bucket |
| `AsrEval.FailureCodesAreExact` | internal/asreval/evaluator.go:281-343 | each failure code is reported if and only if a count of judged samples or characters breaks its bound, with rounding, capping and empty corpora accounted for |
| `AsrEval.ChainDrift` | internal/asreval/evaluator.go:325-343 | along any chain of accepted releases quiet CER falls by the minimum per step and normal CER rises by at most steps times the margin |
| `AsrEval.ChainLengthBounded` | internal/asreval/evaluator.go:325-343 | with a positive minimum improvement a chain of accepted releases has bounded length |
| `AsrEval.AcceptedRatios` | internal/asreval/evaluator.go:325-343 | the true ratios, not only the rounded reports, of an accepted challenger obey the ceilings |
| `AsrRisk.NewCalibratedController` | internal/asrrisk/risk.go:94-121 | an artifact is accepted if and only if it is valid and (n+1) alpha reaches one, and the threshold is the score at the ceiling rank |
| `AsrRisk.RankBounds` | internal/asrrisk/risk.go:111-116 | the rank is the exact ceiling, at least 1, and within the sample if and only if (n+1) alpha reaches one |
| `AsrRisk.ThresholdIsSmallestCovering` | internal/asrrisk/risk.go:111-120 | the threshold is the smallest calibration score that covers at least rank samples |
| `AsrRisk.CalibratedThreshold` | internal/asrrisk/risk.go:94-121 | the threshold of an accepted artifact is the smallest of its scores that covers one minus alpha of the sample with one more observation |
| `AsrRisk.LeaveOneOutCoverage` | internal/asrrisk/risk.go:94-165 | of any n+1 observations, each decided by the controller calibrated on the others, at most alpha (n+1) are not accepted |
| `AsrRisk.AcceptanceCut` | internal/asrrisk/risk.go:123-184 | an observed confidence is accepted exactly above one cut, half a score step beyond the threshold |
| `AsrRisk.RejectedIff` | internal/asrrisk/risk.go:123-150 | evidence is rejected if and only if it contradicts itself |
| `AsrRisk.ReobservedIff` | internal/asrrisk/risk.go:151-165 | an observation is repeated if and only if its score lies beyond the threshold or, once calibrated, nothing was observed |
| `AsrRisk.AcceptanceIsUpwardClosed` | internal/asrrisk/risk.go:123-184 | more confidence never loses an acceptance |
| `AsrRisk.ScoreAntitone` | internal/asrrisk/risk.go:181-184 | the score never rises with the confidence, rounding and clamping included |
| `ByteEncoding.WriteFields` | internal/asrrisk/risk.go:167-179 | the bytes written to the hash are the canonical encoding of the artifact |
| `ByteEncoding.FieldsUndone` | internal/asrrisk/risk.go:167-195 | a decoder recovers every representable artifact from those bytes |
| `ByteEncoding.FieldsInjective` | internal/asrrisk/risk.go:167-195 | two different artifacts are never hashed as the same bytes |
| `ByteEncoding.WordUndone` | internal/asrrisk/risk.go:186-190 | a big-endian word can be read back off the front of any input |
| `ByteEncoding.PrefixedUndone` | internal/asrrisk/risk.go:192-195 | a length-prefixed string can be read back off the front of any input |
| `ByteEncoding.WriteQuotaKey` | internal/httpapi/passkeys.go:617-635 | the scope and then every part are written, each behind its own length |
| `ByteEncoding.QuotaKeyUndone` | internal/httpapi/passkeys.go:617-635 | the list of parts can be decoded from the bytes |
| `ByteEncoding.QuotaKeysDistinct` | internal/httpapi/passkeys.go:617-635 | equal bytes if and only if equal scope and equal parts |
| `ByteEncoding.RestatementFieldUndone` | internal/conversation/agent.go:3070-3074 | a "length:value" field can be read back off the front of any input |
| `ByteEncoding.FingerprintInjective` | internal/conversation/agent.go:2995-3000 | a fingerprint determines the fields it was made from |
| `OutputGate.CoachOutputGate.DeliverAudio` | internal/httpapi/voice_live.go:261-269 | takes the deliver step: audio passes only without a rejection and outside an open checkpoint attempt, to the wire or in strict mode to the buffer, and otherwise rejects |
| `OutputGate.CoachOutputGate.ReleaseHeld` | internal/httpapi/strict_audio_buffer.go:50-68 | takes the release step: the strict buffer takes nothing more in |
| `OutputGate.CoachOutputGate.HandOutNext` | internal/httpapi/voice_live.go:1613-1620 | takes the hand-out step: the next held chunk goes to the writer, and a failure ends the hand-out |
| `OutputGate.CoachOutputGate.WriteAudio` | internal/httpapi/voice_live.go:379-449 | audio before the commit, misshapen or over the frame or byte budget is refused; otherwise exactly the 20 ms frames the socket takes are logged and counted |
| `OutputGate.CoachOutputGate.BeginCheckpoint` | internal/httpapi/voice_live.go:271-280 | takes the begin step; a second attempt fails and rejects |
| `OutputGate.CoachOutputGate.InspectCheckpoint` | internal/httpapi/voice_live.go:1000-1028 | takes the inspection step; passes if and only if the checkpoint is valid and no frame was sent |
| `OutputGate.CoachOutputGate.Reject` | internal/httpapi/voice_live.go:282-286 | takes the rejection step of a failed inspection |
| `OutputGate.CoachOutputGate.PublishCheckpoint` | internal/httpapi/voice_live.go:1032-1058 | takes the publish step; succeeds exactly when nothing was rejected and the coach frame was written |
| `OutputGate.CoachOutputGate.CommitInput` | internal/httpapi/voice_live.go:296-326 | takes the commit step, with the acknowledgement on the wire or the gate rejected |
| `OutputGate.StepKeepsInv` | internal/httpapi/voice_live.go:253-326 | every step keeps the protocol invariant that ties flags, counters and the wire together |
| `OutputGate.WireIsOrdered` | internal/httpapi/voice_live.go:253-326 | in every interleaving: at most one coach frame, none after PCM, at most one ack, a requested ack before all PCM, and PCM frames within the budget |
| `OutputGate.SilentWhileAttempting` | internal/httpapi/voice_live.go:261-280 | from an attempt until its acceptance no PCM frame reaches the wire, in any continuation |
| `OutputGate.AfterRejection` | internal/httpapi/voice_live.go:261-326 | after a rejection only one outstanding acknowledgement can still be written, ever |
| `OutputGate.NothingFollowsRejectionIff` | internal/httpapi/voice_live.go:296-326 | nothing follows a rejection if and only if no requested acknowledgement is outstanding |
| `OutputGate.RejectionCanPrecedeAck` | internal/httpapi/voice_live.go:296-326 | a concrete run in which the acknowledgement follows a rejection |
| `OutputGate.SuccessMatchesTheCoachFrame` | internal/httpapi/voice_live.go:1061-1071 | a successful result with respondent metadata agrees field by field with the one coach frame on the wire |
| `OutputTurns.FrameIsSlice` | internal/httpapi/voice_live.go:430-449 | the frames of a chunk are its consecutive 960-byte slices |
| `OutputTurns.WireIsWritten` | internal/httpapi/voice_live.go:253-326 | over any run the wire holds exactly what its actions wrote, in order |
| `OutputTurns.AudioIsHeard` | internal/httpapi/voice_live.go:379-449 | over any run the audio on the wire is, in order, what each delivery or hand-out got through: the first bytes of its chunk, as many frames as the socket took |
| `OutputTurns.DeliveryReachesTheWire` | internal/httpapi/voice_live.go:261-449 | a delivery appends exactly the frames taken if it comes behind the commit, with the gate open, in whole samples and within chunk, frame and byte budgets, and otherwise none |
| `OutputTurns.DeliveryIsHeld` | internal/httpapi/strict_audio_buffer.go:27-42 | in strict mode the same delivery is held back under the buffer's own budget, and nothing is written |
| `OutputTurns.BytesAreAccounted` | internal/httpapi/voice_live.go:414-426 | over any run the byte counters are the sizes of the audio on the wire and of what is held |
| `OutputTurns.CompleteTurn` | internal/httpapi/voice_live.go:253-449 | in a turn in which nothing fails the client receives the requested acknowledgement, the checkpoint if there is one, and then all of every chunk |
| `OutputTurns.CompleteStrictTurn` | internal/httpapi/voice_live.go:1599-1620 | in strict mode nothing is heard before the release, and afterwards all of every chunk |
| `OutputTurns.StrictWireIsPrefix` | internal/httpapi/voice_live.go:1613-1620 | in strict mode, over any run, the audio on the wire is a beginning of what was held back, whole chunks as long as no hand-out failed |
| `OutputTurns.HeldIsKept` | internal/httpapi/strict_audio_buffer.go:27-42 | over any run the strict buffer holds exactly the chunks its deliveries left with it, in order |
| `OutputTurns.RejectedIff` | internal/httpapi/voice_live.go:253-326 | a run is rejected if and only if one of its actions spoiled it: audio during an open attempt, a second attempt, a failed inspection, write or commit |
| `OutputTurns.CoachFrameIsEarned` | internal/httpapi/voice_live.go:1000-1058 | every coach frame on the wire had its checkpoint begun, found valid before any audio, and then published |
| `PcmOutput.HasMeaningfulSample` | internal/speechio/pcm.go:8-19 | true if and only if some aligned signed 16-bit sample reaches the magnitude floor |
| `PcmOutput.MeaningfulConcat` | internal/speechio/pcm.go:8-19 | cutting audio at a sample boundary neither hides nor invents a meaningful sample |
| `PcmOutput.FramesLoseNothing` | internal/httpapi/voice_live.go:430-449 | the frames concatenate back to the audio |
| `PcmOutput.FrameShape` | internal/httpapi/voice_live.go:430-449 | exactly the rounded-up number of frames, all full but the last, all sample aligned |
| `PcmOutput.OutputMetrics.Account` | internal/httpapi/voice_live.go:414-426 | one frame more keeps totals in bounds, and first output is set once, exactly when the audio sent so far has a meaningful sample |
| `PcmOutput.OutputMetrics.Deliver` | internal/httpapi/voice_live.go:379-449 | sends a prefix of the chunk's frames, all of them on success, and stops at the first dead context or refused frame; nothing when the chunk is not admitted |
| `PcmOutput.OutputMetrics.MarkCommitted` | internal/httpapi/voice_live.go:244-248 | opens the output without touching what was sent |
| `StrictAudio.StrictAudioBuffer.MarkCommitted` | internal/httpapi/strict_audio_buffer.go:19-25 | commits an open buffer; a closed one stays as it is |
| `StrictAudio.StrictAudioBuffer.Append` | internal/httpapi/strict_audio_buffer.go:27-42 | accepts exactly the admitted chunks, in order, as fresh copies; nothing before commit or after close |
| `StrictAudio.StrictAudioBuffer.Spoke` | internal/httpapi/strict_audio_buffer.go:44-48 | true if and only if the open buffer has accepted something |
| `StrictAudio.StrictAudioBuffer.Release` | internal/httpapi/strict_audio_buffer.go:50-68 | delivers a prefix of the accepted appends in order, all on success, up to the first failure otherwise, then closes with every copy zeroed |
| `StrictAudio.StrictAudioBuffer.Clear` | internal/httpapi/strict_audio_buffer.go:70-78 | closes with every copy ever made zeroed and delivers nothing |
| `StrictAudio.ClearAudioChunks` | internal/httpapi/strict_audio_buffer.go:80-84 | every chunk is zeroed in place, aliased ones included |
| `Clauses.SplitClauses` | internal/answercontract/evaluate.go:446-468 | the builder loop yields the collapsed pieces between delimiters, without blank ones |
| `Clauses.ClausesKeepCore` | internal/answercontract/evaluate.go:446-468 | splitting loses only white space and delimiters and keeps the order of everything else |
| `Clauses.NewlinesAreDead` | internal/answercontract/evaluate.go:446-464 | no newline survives collapsing, so those two delimiters never occur |
| `Clauses.FindOnly` | internal/answercontract/evaluate.go:408-427 | finds the only place where the block occurs, and fails exactly when there is none or more than one |
| `Clauses.StableFrontMove` | internal/answercontract/evaluate.go:398-444 | true if and only if the block occurs exactly once and the reconstruction is the block followed by the rest in order |
| `Clauses.FrontMovePermutes` | internal/answercontract/evaluate.go:398-444 | a front move is a permutation that begins with the commitment |
| `Clauses.FrontMoveUnique` | internal/answercontract/evaluate.go:398-444 | answer and commitment determine the only possible front move |
| `Clauses.RepeatedMoveIff` | internal/answercontract/evaluate.go:398-444 | repeating the move on its result succeeds if and only if no copy straddles the seam or the gap |
| `Clauses.OneClauseMoveRepeats` | internal/answercontract/evaluate.go:398-444 | a one-clause move can always be repeated |
| `Clauses.TwoClauseMoveNeedNotRepeat` | internal/answercontract/evaluate.go:398-444 | a two-clause move that cannot be repeated |
| `Clauses.FrontMoveKeepsCharacters` | internal/answercontract/evaluate.go:398-468 | at text level a front move neither adds nor loses a word character |
| `Markers.ClausesHold` | internal/answercontract/evaluate.go:446-468 | a word without white space and delimiters is in a text if and only if it is in one of its clauses |
| `Markers.MarkersAreArrangementFree` | internal/answercontract/evaluate.go:470-502 | condition, cause, polarity and uncertainty markers read the same off every arrangement of the same clauses |
| `Text.CollapseIdempotent` | internal/answercontract/evaluate.go:717-719 | collapsing twice is collapsing once |
| `Text.CollapseKeepsText` | internal/answercontract/evaluate.go:717-719 | collapsing keeps every other character in order |
| `AnswerContract.UniqueSlots` | internal/answercontract/evaluate.go:638-652 | accepts exactly the duplicate-free lists of known slots |
| `AnswerContract.CheckHypotheses` | internal/answercontract/evaluate.go:237-261 | accepts exactly non-increasing, distinctly named hypotheses within the sum bound |
| `AnswerContract.Validate` | internal/answercontract/evaluate.go:209-311 | accepts exactly the contracts that meet every declared bound |
| `AnswerContract.KeepIff` | internal/answercontract/evaluate.go:43-162 | an answer is kept if and only if the question is unambiguous and the target is already satisfied |
| `AnswerContract.AcceptedIsFrontMove` | internal/answercontract/evaluate.go:342-373 | an accepted repair with positive gain is a front move of the person's clauses |
| `AnswerContract.RestructureIsFrontMove` | internal/answercontract/evaluate.go:43-162 | the answer handed out by Restructure is the front move of the commitment: same clauses, same characters, commitment first |
| `AnswerContract.RestructurePreconditions` | internal/answercontract/evaluate.go:43-162 | Restructure implies an anchored commitment, every required slot filled, and confidence and gain above their thresholds |
| `AnswerOutcome.FloorIff` | internal/answercontract/evaluate.go:342-396 | the deterministic floor holds if and only if the answer is the front move, the extracted conditions, causes and facts agree, and an unhedged answer is labelled as committed |
| `AnswerOutcome.RepairAcceptedIff` | internal/answercontract/evaluate.go:75-109 | a repair with a gain is accepted if and only if every slot is filled, the issue does not block, the model's own claims are in place, and the proposed answer rearranges the person's |
| `AnswerOutcome.KeptIff` | internal/answercontract/evaluate.go:43-162 | an answer is kept if and only if the question is clear and the person's answer has every slot, in front, without an issue |
| `AnswerOutcome.RestructuredIff` | internal/answercontract/evaluate.go:43-162 | an answer is restructured if and only if, on the contract's labels and the two texts, it has every slot but not yet in front without an issue, and a gainful proposal rearranges it |
| `AnswerOutcome.RejectedIff` | internal/answercontract/evaluate.go:43-162 | an answer is rejected if and only if the question is clear and the commitment is misplaced, the issue blocks, nothing is filled, or a gainful proposal is wanted and not acceptable |
| `AnswerOutcome.RestructureKeepsMeaning` | internal/answercontract/evaluate.go:342-396 | answer handed out and original agree in condition, cause, polarity and uncertainty markers and in every extracted condition, cause and fact |
| `AnswerOutcome.UnhedgedIsNotRestructured` | internal/answercontract/evaluate.go:391-395 | an answer without a hedge that is labelled conditional, uncertain or abstaining is never restructured |
| `AnswerOutcome.BehindFillersIff` | internal/answercontract/evaluate.go:173-201 | the commitment is in front if and only if the text begins with it, or its clauses follow right behind a leading run of whole filler clauses |
| `Lease.MemoryVoiceLiveLeaseManager.Acquire` | internal/guard/voice_live_lease.go:239-283 | grants exactly on a free or unambiguously expired slot, stores the new lease, and changes nothing on any error |
| `Lease.MemoryVoiceLiveLeaseManager.ReleaseLease` | internal/guard/voice_live_lease.go:291-302 | removes the entry only when it still has this holder |
| `Lease.MemoryVoiceLiveLeaseManager.FinishVoiceLive` | internal/httpapi/voice_live.go:495-534 | a pipeline that was not joined in time keeps its lease, and so does a release that times out |
| `Lease.StoresAgree` | internal/guard/voice_live_lease.go:66-107 | on complete documents the transactional check decides exactly as the in-memory manager |
| `Lease.LeasePersists` | internal/guard/voice_live_lease.go:239-302 | a granted lease stays until it is released or found expired by a later acquire |
| `Lease.Exclusion` | internal/guard/voice_live_lease.go:239-302 | if the readings rise to no peak, of two grants for one user the earlier had been released or had expired when the later was granted |
| `Lease.ExclusionIff` | internal/guard/voice_live_lease.go:98-107 | every run with given clock readings is exclusive if and only if no reading lies above both an earlier and a later one, even among runs with fresh holders |
| `Lease.MonotoneClockIsExclusive` | internal/guard/voice_live_lease.go:239-302 | a clock that never goes back is exclusive |
| `Lease.ExclusionNeedsTheClock` | internal/guard/voice_live_lease.go:239-302 | readings 100, 200, 120 admit a run that is not exclusive |
| `Lease.EntryIsLatestGrant` | internal/guard/voice_live_lease.go:239-302 | the stored entry is always the lease of the latest grant |
| `Lease.EntryIff` | internal/guard/voice_live_lease.go:239-302 | the map holds for a user exactly the latest grant that has not been released |
| `Lease.AcquireVerdict` | internal/guard/voice_live_lease.go:239-283 | after any run an acquire is granted, held or refused for its expiry exactly by the standing lease and the clock, and the corrupt case never comes up |
| `Lease.ReleaseSparesLater` | internal/guard/voice_live_lease.go:291-302 | releasing an earlier lease never removes a later one |
| `VoiceLive.VoiceLiveServer.Open` | internal/httpapi/voice_live.go:711-753 | a connection exists exactly when its lease was granted |
| `VoiceLive.VoiceLiveServer.StartPipeline` | internal/httpapi/voice_live.go:943-953 | takes the start step of the server machine |
| `VoiceLive.VoiceLiveServer.PipelineEnds` | internal/httpapi/voice_live.go:952-953 | takes the end step; it may come after the handler has returned |
| `VoiceLive.VoiceLiveServer.FinishConnection` | internal/httpapi/voice_live.go:495-534 | takes the shutdown step: releases at once without a pipeline, after the join with one, and not at all on a time-out |
| `VoiceLive.ConnectIff` | internal/httpapi/voice_live.go:711-753 | a connection is made if and only if the user is named and has no lease left that has not usably expired |
| `VoiceLive.FinishFreesTheSlot` | internal/httpapi/voice_live.go:495-534 | a returning handler gives its lease back unless it leaves a pipeline running or the release times out |
| `VoiceLive.TraceLeases` | internal/guard/voice_live_lease.go:239-302 | the server and the lease manager run in step |
| `VoiceLive.ReleaseEndsThePipeline` | internal/httpapi/voice_live.go:495-534 | in every run a lease is released only while its pipeline is not running, and none runs under it afterwards |
| `VoiceLive.OverlapHasOrder` | internal/httpapi/voice_live.go:495-534 | of any two running pipelines of a user one has the older grant |
| `VoiceLive.OverlapNeedsExpiry` | internal/httpapi/voice_live.go:495-534 | in runs of the server whose readings never go back behind an expiry already seen, early disconnects and lost releases included, two pipelines of a user run together only if the older had outlived its lease when the newer got its own |
| `VoiceLive.OverlapIff` | internal/httpapi/voice_live.go:711-753 | all runs of the server, each lease of its fixed duration, with given clock readings have only such overlaps if and only if no reading goes back behind an expiry, other than the zero instant, that an earlier one has seen |
| `VoiceLive.ShortStepBack` | internal/httpapi/voice_live.go:53 | readings of 100, 200 and 120 seconds are harmless to the server, though a manager of shorter leases would not be exclusive |
| `RateLimit.CounterState.AdvanceInPlace` | internal/guard/rate_limit.go:87-117 | the in-place update agrees with the value-level advance, error for error |
| `RateLimit.MemoryLimiter.Consume` | internal/guard/rate_limit.go:282-300 | one user's counter advances, and a refused call leaves no trace |
| `RateLimit.HistoryHolds` | internal/guard/rate_limit.go:87-117 | for any clock readings the stored windows are the latest used and count their accepted calls |
| `RateLimit.WindowBounds` | internal/guard/rate_limit.go:87-122 | no UTC minute or day ever holds more accepted calls than its limit |
| `RateLimit.SlidingBounds` | internal/guard/rate_limit.go:87-122 | any sliding 60 seconds or 24 hours holds at most twice the limit |
| `RateLimit.AcceptedIff` | internal/guard/rate_limit.go:87-122 | a call is accepted if and only if the counter is not stuck at the zero instant, the call's windows have not regressed, and neither is full |
| `RateLimit.RefusedBecause` | internal/guard/rate_limit.go:87-122 | a refusal is an invalid window if and only if the counter is stuck or the windows have regressed, and otherwise a full window; there is no third reason |
| `RateLimit.StuckForever` | internal/guard/rate_limit.go:95-101 | once the last accepted window starts at the zero instant, every later call is refused |
| `RateLimit.ZeroInstantSticks` | internal/guard/rate_limit.go:95-101 | a call at the zero instant is accepted and no call after it |
| `RateLimit.UsersAreIndependent` | internal/guard/rate_limit.go:282-300 | each user's counter is what that user's own calls alone produce |
| `QuotedSpeech.Strip` | internal/conversation/agent.go:5554-5585 | the stack loop computes the scan |
| `QuotedSpeech.ScanRender` | internal/conversation/agent.go:5554-5585 | scanning a well-quoted phrase returns to the same stack and keeps only its outline |
| `QuotedSpeech.Parse` | internal/conversation/agent.go:5554-5585 | every accepted text has a derivation in the quotation grammar |
| `QuotedSpeech.AcceptsExactlyWellQuoted` | internal/conversation/agent.go:5554-5600 | the scanner returns an output if and only if the text is a well-quoted phrase with that outline |
| `QuotedSpeech.StripIsFinal` | internal/conversation/agent.go:5554-5600 | the output holds no quote mark and is a fixed point |
| `QuotedSpeech.InsideIsUnheard` | internal/conversation/agent.go:5554-5600 | replacing the inside of a quoted region by other balanced text never changes the output |
| `QuotedSpeech.Reparse` | internal/conversation/agent.go:5554-5600 | whether a text is well quoted depends on its quote marks alone |
| `CoachPhrase.NormalizeExplicitCoachPhrase` | internal/conversation/agent.go:6640-6655 | the filler loop computes the normalized phrase and ends on every utterance |
| `CoachPhrase.NormalizedAround` | internal/conversation/agent.go:6640-6655 | normalizing acts separately before a quotation, inside it and behind it |
| `CoachPhrase.NormalizingKeepsMarks` | internal/conversation/agent.go:6640-6655 | normalizing neither loses nor adds a quote mark before or inside a quotation |
| `CoachPhrase.InsideIsUnheardInUtterance` | internal/conversation/agent.go:5528-5585 | replacing the inside of a quotation in the raw utterance never changes what is left after normalizing and stripping |
| `Text.CollapseIsSqueeze` | internal/answercontract/evaluate.go:717-719 | collapsing is one left-to-right pass |
| `Consent.ExplicitCoachOptIn` | internal/conversation/agent.go:5528-5552 | for every utterance the loop decides exactly the coach consent of its normalized, stripped, marked clauses |
| `Consent.ExplicitProxyAnswerOptIn` | internal/conversation/agent.go:6082-6118 | for every utterance the loop decides exactly whether the latest proxy intent grants |
| `Consent.ExplicitProxyAnswerOptOut` | internal/conversation/agent.go:6120-6166 | for every utterance the loop decides exactly whether the latest proxy intent refuses |
| `Consent.CoachOptInIff` | internal/conversation/agent.go:5528-5552 | coach consent stands if and only if the proxy one does, or some clause asks for the coach in the speaker's own name and no clause from there on withdraws |
| `Consent.ProxyOptInIff` | internal/conversation/agent.go:6082-6118 | proxy consent stands if and only if some clause grants it and no later clause refuses, where short forms count once the topic has come up |
| `Consent.ProxyOptOutIff` | internal/conversation/agent.go:6120-6166 | a refusal stands if and only if some clause refuses and no later clause grants |
| `Consent.AutomataAgree` | internal/conversation/agent.go:6082-6166 | the grant and refusal automata observe the same intents and end in opposite verdicts |
| `Consent.NeverBothGrantAndRefuse` | internal/conversation/agent.go:6082-6166 | no utterance is both an opt-in and an opt-out |
| `Consent.QuotationCannotConsent` | internal/conversation/agent.go:5528-5600 | nothing said inside a quotation of an utterance changes the coach opt-in, the proxy opt-in or the proxy opt-out |
| `IntentBoundaries.RewriteLowersHits` | internal/conversation/agent.go:6356-6388 | each rewrite strictly lowers the number of needle occurrences, although the phrase may grow |
| `IntentBoundaries.RewritingIsBounded` | internal/conversation/agent.go:6356-6388 | in any order a phrase admits at most as many rewrites as it has needle occurrences |
| `IntentBoundaries.RewritingKeepsWords` | internal/conversation/agent.go:6356-6388 | rewriting touches only stops, commas and blanks |
| `IntentBoundaries.ScanRule` | internal/conversation/agent.go:6362-6380 | the search for one needle returns an audited boundary or none of its non-overlapping occurrences is audited |
| `IntentBoundaries.FindBoundary` | internal/conversation/agent.go:6356-6383 | the nested search fails exactly when every rule's search does, and otherwise returns a table rule that applies |
| `IntentBoundaries.MarkBoundaries` | internal/conversation/agent.go:6334-6388 | the loop ends on every phrase with the words kept and every search failing, takes only steps its searches stop at, leaves a finished phrase alone, and keeps an audited boundary exactly at a doubled stop |
| `IntentBoundaries.MissedBoundaryOverlaps` | internal/conversation/agent.go:6362-6380 | a missed audited boundary overlaps an earlier occurrence of its own needle |
| `IntentBoundaries.ScanIsCompleteIff` | internal/conversation/agent.go:6362-6380 | the search for one table needle misses nothing on any phrase, under any audit, if and only if the needle cannot overlap itself |
| `IntentBoundaries.SelfOverlapsIff` | internal/conversation/agent.go:6336-6355 | of the table needles exactly those of a repeated stop request overlap themselves |
| `IntentBoundaries.LeftoverIff` | internal/conversation/agent.go:6356-6388 | for the audit in use, a phrase in which every search fails still holds an audited boundary if and only if it holds a doubled stop |
| `IntentBoundaries.LeftoverWasDoubled` | internal/conversation/agent.go:6356-6388 | a doubled stop in the result was already in the normalized phrase |
| `IntentBoundaries.LoopCanLeaveBoundary` | internal/conversation/agent.go:6334-6388 | a phrase in which the whole loop finds nothing to do although an audited table boundary is in it |
| `StubbornStops.AnchorStays` | internal/conversation/agent.go:6356-6388 | under the audit of its one intent, a turn of the loop leaves a stubborn doubled stop standing |
| `StubbornStops.LoopEnds` | internal/conversation/agent.go:6356-6388 | the loop can be run to its end on every phrase, under every audit |
| `StubbornStops.StubbornIff` | internal/conversation/agent.go:6334-6388 | some audit makes the loop leave an audited boundary, in one of its runs or in every one, if and only if the phrase holds a doubled stop that does not go on to its polite form |
| `StubbornStops.TripleStays` | internal/conversation/agent.go:6356-6388 | under a given audit that lists both stops, a turn of the loop leaves a stop said three times at the end of its clause, here or one word earlier |
| `StubbornStops.TripleAlwaysLeaves` | internal/conversation/agent.go:6334-6388 | under such an audit every run of the loop on a phrase that holds one leaves an audited boundary, and the phrase is stubborn |
| `StubbornStops.LeavesIsStubborn` | internal/conversation/agent.go:6356-6388 | whatever the given audit, a phrase in which the loop leaves an audited boundary held a stubborn doubled stop |
| `ThoughtNodes.MergeNodes` | internal/conversation/agent.go:6776-6800 | remove, append and truncate in place equal the last three of the unbounded list by last occurrence |
| `ThoughtNodes.TruncationCommutes` | internal/conversation/agent.go:6785-6794 | truncating after every step is as good as truncating once at the end |
| `ThoughtNodes.MergedShape` | internal/conversation/agent.go:6776-6800 | at most three distinct, collapsed, unfiltered nodes, each taken from the inputs |
| `ThoughtNodes.MergeIdempotent` | internal/conversation/agent.go:6776-6800 | merging a merged list with nothing new changes nothing |
| `ThoughtNodes.NormalizeNodes` | internal/conversation/contracts.go:552-573 | a stored list is accepted exactly within the limits and loses only repeated nodes |
| `ThoughtNodes.MergedFitsLimits` | internal/conversation/contracts.go:552-573 | if the inputs' nodes fit the length limit, the merged list is accepted back unchanged |
| `GuestTrial.TransitionSucceedsIff` | internal/guesttrial/ledger.go:106-134 | exactly when an event succeeds; the closing validation never fails |
| `GuestTrial.TransitionEvolves` | internal/guesttrial/ledger.go:106-134 | deadline and question never change, assistance is never withdrawn, the generation grows by one |
| `GuestTrial.CreatedIff` | internal/guesttrial/memory.go:24-46 | a trial is created if and only if it is a fresh one under a free valid key and what has not expired leaves room; the store then holds exactly that and the trial |
| `GuestTrial.MemoryStore.CreateRecord` | internal/guesttrial/memory.go:24-46 | the sweeping loop removes exactly the expired records before the capacity check, error for error; a failed create changes nothing and the store stays within its capacity |
| `GuestTrial.RunKeepsCapacity` | internal/guesttrial/memory.go:24-83 | in every run of a new store it holds at most as many records as its capacity |
| `GuestTrial.FailedCreateLeavesStore` | internal/guesttrial/memory.go:24-46 | in every run of a new store a create that fails leaves it alone, although it sweeps before it looks at the capacity |
| `GuestTrial.MemoryStore.ReadRecord` | internal/guesttrial/memory.go:48-62 | returns the stored record only while it is current |
| `GuestTrial.MemoryStore.ApplyEvent` | internal/guesttrial/memory.go:64-83 | replaces the record by its transition or changes nothing |
| `GuestTrial.GenerationCountsSuccesses` | internal/guesttrial/memory.go:64-83 | while the key is not reused, over any run the generation counts the successful events |
| `GuestTrial.RecordTellsHistory` | internal/guesttrial/memory.go:64-83 | while the key is not reused, the change of a record over any run determines which events have succeeded, and in which order |
| `GuestTrial.AtMostOneWins` | internal/guesttrial/memory.go:64-83 | of all operations racing on one generation of a record at most one succeeds |
| `GuestTrial.CommitMeansUnchanged` | internal/guesttrial/verification.go:24-67 | while the key is not reused a verdict commits only if nothing succeeded since the read, before the original deadline, changing status and generation alone |
| `GuestTrial.StaleVerdictIff` | internal/guesttrial/verification.go:24-67 | reused keys included, with no create dated after the commit the verdict lands on the verified record if and only if that record's deadline has not passed |
| `GuestTrial.StaleVerdictPossibleIff` | internal/guesttrial/memory.go:17-83 | some run lets the verdict land on another record if and only if the commit comes at or after the read record's deadline, or a whole trial after it where the store has room for one record |
| `GuestTrial.CountedOrSucceeded` | internal/guesttrial/memory.go:24-83 | in runs without a twin create, a record has been counted up by its successful events, is gone, or was succeeded by one with another deadline |
| `GuestTrial.TwinFreeRuns` | internal/guesttrial/memory.go:24-46 | runs that do not reuse the key, and runs whose creates are dated in order, have no twin create |
| `GuestTrial.DocumentsAreSeparate` | internal/guesttrial/service.go:48-64 | the authenticated message determines owner, application and trial id |
| `GuestTrial.Service.Begin` | internal/guesttrial/service.go:70-92 | starts a fresh pending trial exactly when the store creates it, on a key that was free |
| `GuestTrial.Service.Update` | internal/guesttrial/service.go:106-129 | only help and stop succeed, exactly when the context is live and the ledger accepts them, and a failure changes nothing |
| `GuestTrial.Service.Evaluate` | internal/guesttrial/verification.go:24-67 | succeeds exactly when the read finds the expected pending generation, the verifier reaches a verdict, nobody gave up and the store as it is then accepts the event; with arbitrary interference during verification the committed record is always named; it is the verified one when the key is not reused, and otherwise exactly before its deadline |
| `GuestTrialToken.StepSimulates` | internal/conversation/guest_trial.go:90-150 | before the deadline token and ledger accept the same events and move to matching states |
| `GuestTrialToken.RunSimulates` | internal/conversation/guest_trial.go:90-150 | after any events both sides agree and the generation is 1 + assisted + terminal on both |
| `GuestTrialToken.CompletesIff` | internal/conversation/guest_trial.go:115-138 | a trial is completed if and only if it is active for the scope, the voice was committed and a proof names the trial's own question; the outcome follows the proof |
| `GuestTrialToken.ReissueKeepsTheQuestion` | internal/conversation/guest_trial_binding.go:89-111 | every token issued for one owner and trial carries the same session and scope |
| `GuestTrialToken.OpensIff` | internal/conversation/guest_trial_binding.go:66-133 | an issued token opens if and only if user, lifetime, application, trial, generation and assistance still match |
| `GuestTrialToken.IssuedIff` | internal/conversation/guest_trial_binding.go:66-113 | a token is issued if and only if the snapshot is a pending trial before its deadline and the derived tags are well formed |
| `GuestTrialToken.OpensExactly` | internal/conversation/guest_trial_binding.go:66-133 | on trial, owner and clock alone: the same user and application, the same pending trial before its deadline, and a token no older than fifteen minutes |
| `GuestTrialToken.ClosedAfterDeadline` | internal/conversation/guest_trial_binding.go:66-87 | no token opens once the deadline of its trial has passed |
| `GuestTrialToken.OpenedIsIssued` | internal/conversation/guest_trial_binding.go:89-133 | opening on an unchanged trial gives back the issued state |
| `GuestTrialToken.SuccessfulEventRetiresTokens` | internal/conversation/guest_trial_binding.go:66-133 | after any successful event in the store no earlier token opens again, at any time and for any opener, over runs that do not reuse the key, date their creates in order, or at least never repeat the deadline after a sweep |
| `GuestTrialToken.RetiredReopensIff` | internal/conversation/guest_trial_binding.go:66-133 | among runs whose creates are dated from an instant on, one lets a retired token open again if and only if that instant is not after the start of the trial and the store has room for a second trial |
| `Checkpoint.NormalizeFrameIdempotent` | internal/conversation/contracts.go:400-532 | normalizing a normalized frame changes nothing |
| `Checkpoint.NormalFrameIff` | internal/conversation/contracts.go:400-532 | an open frame is left alone if and only if it is well formed and one of three kinds: a native one-turn scope, a scope bound by tags with a fixed subject, or a plain one with its own insensitive subject |
| `Checkpoint.FilledIn` | internal/conversation/contracts.go:400-532 | normalization fills in the phase, the expansion, the unit and the subject, and nothing else |
| `Checkpoint.CheckSlots` | internal/conversation/contracts.go:514-530 | accepts exactly the duplicate-free slot lists that contain the target |
| `Checkpoint.NormalizeStateIdempotent` | internal/conversation/state.go:205-268 | normalizing a normalized state changes nothing: graph, summaries, pending frame, adaptation and support included |
| `Checkpoint.NormalStateIff` | internal/conversation/state.go:205-268 | a state is left alone if and only if its frame, support, session, checkpoint tags, memory, node lists, summaries, adaptation and intervention are each in kept form |
| `Checkpoint.ContentIsNormal` | internal/conversation/state.go:120-171 | every opened state is normalized, with its turn in range |
| `Checkpoint.SealedOpens` | internal/conversation/state.go:77-171 | until it expires, and only then, a token opens as exactly what was sealed |
| `Checkpoint.PreparedIsAccepted` | internal/conversation/native_state.go:18-208 | whatever preparation seals, the validator accepts until it expires, and uses |
| `Checkpoint.PreparedIff` | internal/conversation/native_state.go:165-208 | a preparation hop is believed if and only if an open scope keeps its very token, or the state comes back unchanged one turn later under a new stamp |
| `Checkpoint.AcceptsIff` | internal/conversation/agent.go:654-768 | on the states in its tokens a checkpoint is accepted if and only if each action comes with its own phase, of the request and of the sealed frame, the session stays, the turn grows by one, the scope is carried over and the tag authenticates the request |
| `Checkpoint.SealedIsAccepted` | internal/conversation/agent.go:621-750 | round trip: for each action, the next state sealed in the action's phase with its tag and scope is accepted until it expires |
| `Checkpoint.ScopeIs` | internal/conversation/agent.go:770-781 | the scope of a normalized frame is its native tag, or else its question tag, or else its restatement tag |
| `Checkpoint.AcceptedStep` | internal/conversation/agent.go:654-750 | an accepted checkpoint keeps the session, advances the turn by one or two, and keeps an open scope |
| `Checkpoint.ClosingNamesTheOpenScope` | internal/conversation/agent.go:728-748 | a closing checkpoint names the scope open just before it |
| `Checkpoint.ReplayNeedsTheSameRequest` | internal/conversation/agent.go:676-687 | with an injective tag a checkpoint cannot be replayed under another request |
| `Checkpoint.ChainTurns` | internal/conversation/agent.go:654-750 | along any open chain the session is fixed and the turn is the start plus the number of steps |
| `Checkpoint.NoNativeAgain` | internal/conversation/agent.go:770-795 | once the native scope is gone it never returns and the scope stays as it is |
| `Checkpoint.ScopeChangesAtMostOnce` | internal/conversation/agent.go:770-795 | along any open chain the scope changes at most once, and only from a native to a restatement-bound one |

## Left out

- Floating-point rounding: confidences, coverages and scores are reals, NaN and infinity are separate cases of the recognition evidence only.
- Integer widths: `int` counters, the 64-bit product in `fractionPPM` and `now.Add(ttl)` are unbounded; 32-bit truncation is modelled where lengths are encoded.
- Byte length versus rune count and invalid UTF-8: string bounds count Unicode scalar values.
- Unicode normalization and kana replacement are function parameters, and so is lower-casing, of which only that it keeps quote marks is used.
- Extracted conditions, causes and facts, fillers and consent clauses are abstract; the refusal automaton assumes that no table lists the empty clause.
- `hypothesisEntropy` is a parameter of the outcome.
- AES-GCM, HMAC, SHA-256, base64 and randomness are ideal functions; only the pre-hash encodings are proved.
- Firestore transactions: the lease document check is modelled, the transactional stores are not.
- WebSocket, HTTP and logging plumbing, time-outs, the latency proof and the native waterfall timestamps.
- AnswerContract.Evaluate: modelled as the value the source computes; the rounded metrics of its assessment are not part of it.
- StrictAudio.StrictAudioBuffer.Release: one step of the model; a call that races the hand-out sees the closed buffer, as in the source, and the deliverer cannot call back into the buffer.
- Checkpoint.NormalizeState: session memory is checked by an abstract predicate, and states that carry a guest trial, which these readers refuse, are not represented.
- StubbornStops.StubbornIff: about what some audit does. For one given audit it is necessary that the phrase is stubborn (`LeavesIsStubborn`), enough that a triple stop ends a clause (`TripleAlwaysLeaves`), and exact on the finished phrase (`LeftoverIff`).
- VoiceLive.OverlapIff, Lease.ExclusionIff: the holders in the constructed runs stand for distinct tokens and are not 64 hex digits; no grant looks at their shape.
- GuestTrial.StaleVerdictPossibleIff: the store holds nothing but the read record at the start; what else is in it can only delay a takeover further.
- GuestTrial.StaleVerdictIff: assumes that no create by another caller is dated after the commit; without that the record may be swept early, and `CommitMeansUnchanged` gives the condition on the run instead.
- GuestTrial.Service.Evaluate: a caller that gives up is noticed once after verification, not at each later point.
- The Firestore trial store, `NewBootstrapController`, `Limits` validation, manifest and corpus loading, and the model-driven turn processing: flat validation or external calls.
