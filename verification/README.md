# PLDM firmware device: a verified model

This project models the device side of a PLDM library: the firmware update protocol of
DSP0267 1.3.0 as run by a firmware device, the wire formats it speaks, and the dispatch
and discovery commands of the base protocol around it.

`dafny verify dfyconfig.toml` checks the whole project.

## How it is built

The firmware device exists in three layers.

- `FdInternals.FdInternal` and `FdContext.FirmwareDeviceContext` are classes with the
  fields and the step-by-step methods of the original. They write into the caller's buffer.
- `FdHandlers` says, as functions on byte sequences, what each operation does to a payload,
  what it returns, and which protocol action it takes. Each method is proved to do exactly that.
- `FdState` is the protocol as a labelled transition system: `Action`, `Enabled`, `Perform`.
  The device object collects its actions in a ghost trace, and its `Valid()` says that the
  trace is legal and leads to the present state. Progress, responses and cancels record what
  their bodies read and did. The theorems over whole runs are about every legal trace.

What each operation achieves is stated apart from these layers, from literal bytes and the
platform's answers to the decoded reply and the whole next state: `FdOutcomes` for the commands,
`FdInitiator` for the device's own requests and the answers to them. Both spell out their
conditions and codes instead of using the handlers' own predicates.

`FdCalls` relates runs to the handler calls that make them up, `FdAnswers` says what platform and
update agent must have answered in such a run, `DispatchRuns` takes runs through dispatch, and
`FdWitnesses` gives runs for the surprising cases below.

The platform behind the callbacks is a record of the answers it would give during one
operation, errors included, with up to four clock readings. Nothing is assumed about the
answers beyond their types; theorems that need a clock that never runs backwards say so.

The codecs follow one pattern. A wire form and a parser are functions, with laws between
them: which values survive a round trip, that what decodes encodes to the bytes consumed,
and that a truncated message is never mistaken for a malformed one. The last does not apply
to QueryDownstreamIdentifiersResponse, whose portion is whatever follows its fixed part.
`Formats` proves the laws for lists of items once, by induction. The encoders, size loops and
decoders are methods over arrays, proved against those functions. `Layouts` says where each
field stands in the bytes.

Dispatch (`CmdInterfaces`) and discovery (`Control`, `ControlContexts`, `ControlLaws`,
`Bitmap`) are built the same way, and `Versions` covers version strings and their BCD form.

## What the code does that its callers may not expect

- A repeated VerifyComplete or ApplyComplete does not repeat its result: it sends and records
  GenericError (`FdHandlerLaws.WorkRetrySendsGenericError`). A successful verification whose
  first answer is lost counts as failed once the repetition is answered
  (`FdRepeats.SuccessIsKeptIff`), and the component then never finishes.
- CancelUpdate is refused in LearnComponents and ReadyXfer, and no timer runs there. The two
  timeout reasons for these states exist, but no run reaches them.
- The platform is told to cancel before the cancel command's reply is known to fit. When it does
  not, the device goes on with the update, and may finish it.
- A delivery that the platform's callback reports as failed leaves the request outstanding, so the
  same bytes can be delivered again (`FdRuns.RedeliveredIff`).
- A retry that fails before it is sent still uses up an instance id, be it because the buffer is too
  small, the platform does not say what to fetch, or the range is refused. The response to the
  request on the wire is then refused (`FdWitnesses.UnsentIdIsAccepted`).
- A cancel keeps the request record, so a late response is still matched before it is refused.
- The reply to UpdateComponent echoes the opaque-data flag but never sends the field it
  announces, so the library's own decoder rejects such a reply.
- A platform that asks for the whole of an image of 2^32 - 32 bytes or more never gets a request
  out, because the limit wraps. A range whose end wraps may pass the check and run past the padding.
- A transfer size of zero, which the platform may choose, never finishes a nonempty image.
- The size function of RequestUpdateResponse looks at the command byte, the encoder at the
  optional field.
- `try_at` counts from where the iterator stands, not from the first device.
- Dispatch looks only at the first table entry of a type. The commands advertised for a second
  version may be refused.
- The parameter table's decoder checks up front for 32 bytes, four less than its fixed part
  has; shorter buffers are still reported as too short.
- BCD fields from 150 on do not survive the 32-bit form.
- The layout comment above QueryDownstreamIdentifiersResponse lists a device index in the
  portion header; the code has none, and the model follows the code.

## Model

| member | source | states |
|---|---|---|
| FdInvariant.ReachableInv | pldm-interface/src/firmware_device/fd_context.rs:720-1235 | after every legal run from the initial state the phase record matches the state, a Sent request is filled in and belongs to its phase, complete means a result is there, Failed means a non-success result: what every state-dependent `unwrap` relies on |
| FdInvariant.StepKeepsInv | pldm-interface/src/firmware_device/fd_context.rs:165-1235 | each single action of the protocol keeps that invariant, from any state that satisfies it |
| FdInvariant.StateEdges | pldm-interface/src/firmware_device/fd_internal.rs:91-119 | in every run each operation stays put or takes an edge of one fixed graph, recording where it came from; ActivateFirmware passes through Activate to Idle in one step, so Activate is never seen as the current state |
| FdInvariant.WaitingStatesAreSticky | pldm-interface/src/firmware_device/fd_context.rs:630-656 | LearnComponents is left only by passing the last component, ReadyXfer only by an accepted UpdateComponent or by activation |
| FdInvariant.FailedIsStable | pldm-interface/src/firmware_device/fd_context.rs:981-1048 | in each of the three phases a failed request can be cancelled, and no other action changes more than the T1 timestamp |
| FdInvariant.FailedStaysFailed | pldm-interface/src/firmware_device/fd_context.rs:990-992 | over any run without a cancel command a failed request leaves the whole state as it was, T1 timestamp aside |
| FdInvariant.LateAnswer | pldm-interface/src/firmware_device/fd_context.rs:873-896 | outside the three phases an accepted response changes the T1 timestamp and nothing else |
| FdInvariant.ComponentIsFixed | pldm-interface/src/firmware_device/fd_context.rs:339-344 | the component, its flags and the transfer size never change while the device downloads, verifies or applies |
| FdState.StepAt | pldm-interface/src/firmware_device/fd_context.rs:78-81 | position by position, a legal run is a chain of allowed actions with their state changes |
| FdRuns.FinishedMeansDone | pldm-interface/src/firmware_device/fd_context.rs:1036-1040 | in every run, the step from Apply to ReadyXfer on an answer comes after that component was accepted, downloaded to completion, verified at 100 or more and applied at 100 or more, in this order; in between the device neither starts nor ends an update, and the platform's cancel callback succeeds only within a cancel command that failed after it |
| FdRuns.WorkIsGuarded | pldm-interface/src/firmware_device/fd_context.rs:1132-1180 | in every run, each call of `verify` gets the component that was accepted and downloaded, each call of `apply` one that was also verified, whether the call succeeds or not |
| FdHandlerLaws.PlatformCancelIsLostIff | pldm-interface/src/firmware_device/fd_context.rs:598-628 | once the platform's cancel callback has succeeded, the device stays in its phase exactly when the payload cannot hold the reply or CancelUpdate gets no component information |
| FdRuns.LostCancelGoesOn | pldm-interface/src/firmware_device/fd_context.rs:658-693 | after such a lost cancel everything but the T1 timestamp is as before |
| FdWitnesses.CancelledComponentCanFinish | pldm-interface/src/firmware_device/fd_context.rs:598-628 | for every image, a run of handler calls from the initial state in which the platform is told to cancel the component right after it was accepted and the component is finished all the same |
| FdRuns.PipelineOf | pldm-interface/src/firmware_device/fd_context.rs:966-1048 | in every run, each phase has its milestones behind it: where in the trace they are |
| FdRuns.MilestoneStep | pldm-interface/src/firmware_device/fd_context.rs:942-953 | one action either keeps the number of milestones behind the state or adds the next one |
| FdContext.FirmwareDeviceContext.PipelineBehind | pldm-interface/src/firmware_device/fd_context.rs:83-1235 | a device object in one of the three phases has that phase's milestones behind it in the trace it has collected |
| FdRuns.ChunkBounds | pldm-interface/src/firmware_device/fd_internal.rs:209-227 | each request starts inside the image and fits the transfer size; it ends inside the 32-byte padding exactly when the asked range does not wrap a u32, or the limit itself wraps, or a full transfer from there would not overrun either |
| FdWitnesses.WrappedChunkEscapes | pldm-interface/src/firmware_device/fd_internal.rs:218-221 | four handler calls from the initial state, the last of which sends a request whose chunk runs past the padding |
| FdRuns.DeliveredAsRequested | pldm-interface/src/firmware_device/fd_context.rs:930-940 | in every run, each `download_fw_data` call, whatever it returns, gets the offset of the most recent RequestFirmwareData and exactly the number of bytes that one asked for |
| FdRuns.DeliveredOnce | pldm-interface/src/firmware_device/fd_context.rs:935-961 | in every run, bytes whose callback returned a result, good or bad, are not delivered again before the next RequestFirmwareData |
| FdRuns.RedeliveredIff | pldm-interface/src/firmware_device/fd_context.rs:937-940 | a delivery can be followed at once by another exactly when its callback failed; then only the T1 timestamp has changed and the very same delivery can happen again |
| FdRuns.LastFetch | pldm-interface/src/firmware_device/fd_context.rs:1097-1111 | an outstanding RequestFirmwareData is the last one sent, and the phase record holds its chunk |
| FdIds.IdsCountUp | pldm-interface/src/firmware_device/fd_internal.rs:176-183 | the k-th instance id allocated since the request record was last reset is k mod 32 |
| FdIds.IdStep | pldm-interface/src/firmware_device/fd_internal.rs:157-183 | which actions reset the id, which advance it and which keep it |
| FdIds.StaleResponseRejected | pldm-interface/src/firmware_device/fd_context.rs:878-885 | a response carrying the id of any of the previous 31 allocations of the round is refused and changes nothing, the T1 timestamp included |
| FdIds.OutstandingId | pldm-interface/src/firmware_device/fd_context.rs:1055-1087 | in every run the outstanding id is the one that last went out, advanced by the ids allocated since for requests that could not be sent |
| FdIds.AcceptedAnswersLastSentIff | pldm-interface/src/firmware_device/fd_context.rs:878-885 | in every run an accepted response carries the id of the request that went out last exactly when the number of ids allocated since without sending is a multiple of 32 |
| FdWitnesses.UnsentIdIsAccepted | pldm-interface/src/firmware_device/fd_context.rs:1055-1087 | six handler calls after which the device takes a response under an id it never sent and refuses the one to the request it did send |
| FdRepeats.SuccessIsKeptIff | pldm-interface/src/firmware_device/fd_context.rs:997-1048 | the answer to a successful verification or application moves the device on exactly when the report has not been repeated since that callback; otherwise it marks the request as failed |
| FdRepeats.RepeatedNeverFinishes | pldm-interface/src/firmware_device/fd_context.rs:1128-1162 | once VerifyComplete or ApplyComplete has been repeated, no run without a cancel or a timeout leaves the phase, so the component never finishes |
| FdRepeats.SpoiledStays | pldm-interface/src/firmware_device/fd_context.rs:990-1046 | no run without a cancel or a timeout leaves a phase whose recorded result is not a success |
| FdStatus.ProgressIsTheLastReported | pldm-interface/src/firmware_device/fd_context.rs:704-738 | in every run GetStatus reports, in Verify and Apply, the percentage the platform gave last in that phase, in Download what it says now, and not supported everywhere else; never above 101 |
| FdStatus.AuxStateTellsTheRequest | pldm-interface/src/firmware_device/fd_context.rs:740-771 | in every run the auxiliary state tells failed, unused, complete and in-progress requests apart, both ways; a failed request in a phase shows the code that failed it, which is never success |
| FdTimers.RetriesAreSpaced | pldm-interface/src/firmware_device/fd_context.rs:1215-1234 | with a clock that never runs backwards, n repetitions of an unanswered request take at least n times T2 |
| FdTimers.RetriesAreBounded | pldm-interface/src/firmware_device/fd_context.rs:836-853 | an unanswered request is repeated at most T1/T2 times, once more if the two checks of a call read the clock separately |
| FdTimers.UnansweredStep | pldm-interface/src/firmware_device/fd_context.rs:836-853 | one step of an outstanding request: a repetition comes at least T2 after the previous attempt and no later than T1 after the last sign of the update agent |
| FdTimers.StampsAreNotAhead | pldm-interface/src/firmware_device/fd_context.rs:797-799 | no stored timestamp is ahead of the clock in any run |
| FdDownload.ExchangeStoresPiece | pldm-interface/src/firmware_device/fd_context.rs:898-964 | one request, answer and response: the bytes the agent read off the wire request are stored as the next piece of the image, and the request is complete exactly when the image is |
| FdDownload.DownloadTerminates | pldm-interface/src/firmware_device/fd_context.rs:1050-1121 | with a nonzero transfer size the stored bytes are the image after exactly as many exchanges as there are pieces, and not before |
| FdDownload.PiecesAreTheQuotient | pldm-interface/src/firmware_device/fd_internal.rs:225-226 | the number of pieces is the image size over the transfer size, rounded up |
| FdDownload.ZeroTransferSizeStalls | pldm-interface/src/firmware_device/fd_internal.rs:133-135 | with a transfer size of zero no number of exchanges stores a byte of a nonempty image |
| FdDownload.ThenTransferComplete | pldm-interface/src/firmware_device/fd_context.rs:1055-1083 | after the last exchange the device sends TransferComplete with success |
| FdDownload.DownloadStartsIff | pldm-interface/src/firmware_device/fd_internal.rs:218-224 | a platform asking for the whole image gets its first request out exactly when image size plus 32 fits a u32 |
| FdDownload.AcceptedStartsSession | pldm-interface/src/firmware_device/fd_context.rs:374-384 | an accepted UpdateComponent starts a session with nothing stored |
| FdDownload.SetupReachesReadyXfer | pldm-interface/src/firmware_device/fd_context.rs:203-209 | from the initial state RequestUpdate and the last PassComponentTable reach ReadyXfer with the transfer size the platform chose |
| FdDownload.ExchangesAreRun | pldm-interface/src/firmware_device/fd_context.rs:819-964 | the exchanges of a session are a legal run of the device, and what that run delivers is what is stored |
| FdDownload.UpdateDelivers | pldm-interface/src/firmware_device/fd_context.rs:305-1121 | end to end: any run that reaches ReadyXfer with a nonzero transfer size goes on, through an accepted UpdateComponent and one exchange per piece, as a run that delivers exactly the image, after which TransferComplete reports success |
| FdCalls.UpdateFinishes | pldm-interface/src/firmware_device/fd_context.rs:165-1213 | a whole update made of handler calls only: RequestUpdate, PassComponentTable, UpdateComponent, one exchange per piece and three acknowledged reports take an idle device to the finished component, for any component and image, having delivered exactly the image |
| FdAnswers.FinishedMeansAnswered | pldm-interface/src/firmware_device/fd_context.rs:305-1048 | in every run of handler calls a component finishes only after the platform judged that exactly the component described in the request can be updated, took the last data with success, verified it with success at 100 or more and applied it likewise |
| FdCalls.UpdateIsActivated | pldm-interface/src/firmware_device/fd_context.rs:394-448 | with an ActivateFirmware call after the finished component the whole update ends in Idle by way of Activate, reason Activated, for any component and image |
| FdAnswers.FailedWorkStays | pldm-interface/src/firmware_device/fd_context.rs:1123-1213 | a failed verification or application is sent and recorded with the platform's own code, and no run without a cancel or timeout leaves the phase after it |
| FdAnswers.TransferFails | pldm-interface/src/firmware_device/fd_context.rs:898-995 | an error code of the update agent other than the retry code, or a result of the platform other than success, is what the next progress call reports in TransferComplete (aborted, or that result), and the answer leaves the request failed in Download |
| FdAnswers.StatusTellsTheEnd | pldm-interface/src/firmware_device/fd_context.rs:696-795 | after any call that takes the device to Idle GetStatus shows Idle, the state the device came from, and the reason: activation, cancel, or the timeout of that phase |
| FdAnswers.StatusTellsTheFailure | pldm-interface/src/firmware_device/fd_context.rs:740-771 | a failed transfer shows as failed in Download, with its code |
| FdAnswers.KindOfAct | pldm-interface/src/firmware_device/fd_context.rs:96-1048 | which calls can take which actions: only UpdateComponent stores, only ActivateFirmware activates, only progress works or times out, only responses deliver |
| FdOutcomes.RequestUpdateMeans | pldm-interface/src/firmware_device/fd_context.rs:165-219 | update mode is entered exactly when the device is idle, the request can be read, the agent takes at least 32 bytes and the platform names a size; the whole next state in each case |
| FdOutcomes.RequestUpdateAnswers | pldm-interface/src/firmware_device/fd_context.rs:165-219 | every reply of RequestUpdate: the refusals with their codes, the platform's error, and a granted reply that decodes to Success without package data |
| FdOutcomes.PassComponentMeans | pldm-interface/src/firmware_device/fd_context.rs:221-303 | LearnComponents is left exactly with a judged component flagged End or StartAndEnd; the whole next state in each case |
| FdOutcomes.PassComponentAnswers | pldm-interface/src/firmware_device/fd_context.rs:221-303 | every reply of PassComponentTable: refusals with their codes, platform errors, and the judgement |
| FdOutcomes.UpdateComponentMeans | pldm-interface/src/firmware_device/fd_context.rs:305-392 | Download is entered exactly from ReadyXfer when the request can be read, the parameters are there and the platform's judgement is that the component can be updated; otherwise state, request and phase stay; a readable component is stored as the received bytes describe it |
| FdOutcomes.UpdateComponentAnswers | pldm-interface/src/firmware_device/fd_context.rs:305-392 | every reply of UpdateComponent: refusals, platform errors, and the judgement with the flags echoed |
| FdOutcomes.ComponentIsAsReceived | pldm-interface/src/firmware_device/fd_context.rs:339-372 | what is stored has the received bytes as its wire form |
| FdOutcomes.ComponentArrives | pldm-interface/src/firmware_device/fd_context.rs:339-372 | a component an agent describes is stored with exactly its fields |
| FdOutcomes.ActivateFirmwareMeans | pldm-interface/src/firmware_device/fd_context.rs:394-448 | activation takes effect exactly in ReadyXfer with flag 0 or 1, a platform code of Success or ActivationNotRequired and room for the reply; then the device is idle by way of Activate, and in all other cases nothing changes |
| FdOutcomes.ActivateFirmwareAnswers | pldm-interface/src/firmware_device/fd_context.rs:394-448 | every reply of ActivateFirmware; the code and the time read back as the platform gave them |
| FdOutcomes.CancelUpdateComponentMeans | pldm-interface/src/firmware_device/fd_context.rs:570-628 | the component is cancelled exactly in a phase that has not applied its image, when the platform agrees and the reply fits; the whole next state |
| FdOutcomes.CancelUpdateComponentAnswers | pldm-interface/src/firmware_device/fd_context.rs:570-628 | every reply of CancelUpdateComponent |
| FdOutcomes.CancelUpdateMeans | pldm-interface/src/firmware_device/fd_context.rs:630-694 | the update is cancelled exactly in such a phase, when the platform agrees, tells about its components and the reply fits; otherwise at most T1 is refreshed |
| FdOutcomes.CancelUpdateAnswers | pldm-interface/src/firmware_device/fd_context.rs:630-694 | every reply of CancelUpdate; the non-functioning flag and bitmap read back as the platform gave them |
| FdOutcomes.GetStatusAnswers | pldm-interface/src/firmware_device/fd_context.rs:696-795 | byte by byte what GetStatus shows of the state, with every code and both directions for the auxiliary state, and no change of state |
| FdOutcomes.QueryDeviceIdentifiersAnswers | pldm-interface/src/firmware_device/fd_context.rs:96-133 | the reply decodes to the platform's descriptors, in order and all of them; a count of zero or above four is an error |
| FdOutcomes.GetFirmwareParametersAnswers | pldm-interface/src/firmware_device/fd_context.rs:135-163 | the reply decodes to the platform's parameters |
| FdOutcomes.PendingComponentAnswers | pldm-interface/src/firmware_device/fd_context.rs:473-523 | every reply of ActivatePendingComponentImage; a time goes out with Success only |
| FdOutcomes.SecurityRevisionAnswers | pldm-interface/src/firmware_device/fd_context.rs:525-568 | every reply of UpdateSecurityRevision |
| FdInitiator.ProgressSendsIff | pldm-interface/src/firmware_device/fd_context.rs:819-871 | progress sends exactly when a request is ready, or outstanding with T2 passed and T1 not, the buffer can hold it, and there is a range to fetch or a result to report |
| FdInitiator.FetchSays | pldm-interface/src/firmware_device/fd_context.rs:1085-1121 | RequestFirmwareData carries the platform's range cut to the transfer size, under the next id, and the whole next state |
| FdInitiator.TransferCompleteSays | pldm-interface/src/firmware_device/fd_context.rs:1055-1083 | TransferComplete carries the recorded result and keeps it |
| FdInitiator.VerifyCompleteSays | pldm-interface/src/firmware_device/fd_context.rs:1123-1165 | the first VerifyComplete carries and records the code the platform's verification came back with, a repetition generic error; the progress record |
| FdInitiator.ApplyCompleteSays | pldm-interface/src/firmware_device/fd_context.rs:1167-1213 | the same for ApplyComplete |
| FdInitiator.TimesOutIff | pldm-interface/src/firmware_device/fd_context.rs:836-853 | progress ends an update exactly when a request is unanswered for more than T1 and the cancel callback succeeds; the whole next state |
| FdInitiator.NothingDue | pldm-interface/src/firmware_device/fd_context.rs:1215-1234 | when nothing is due progress is an error and changes nothing |
| FdInitiator.UnsentCostsAnId | pldm-interface/src/firmware_device/fd_context.rs:1050-1121 | a due request that does not go out costs an instance id and nothing else; which error tells why |
| FdInitiator.WorkUnsent | pldm-interface/src/firmware_device/fd_context.rs:1123-1213 | work that goes on refreshes T1 and records its percentage; a result that does not fit is asked for again |
| FdInitiator.WorkBreaks | pldm-interface/src/firmware_device/fd_context.rs:1123-1213 | an error of the platform's work is passed on and changes nothing |
| FdInitiator.ResponseIsTakenIff | pldm-interface/src/firmware_device/fd_context.rs:873-896 | a response is taken exactly when a request is outstanding and id and command are those sent; any other changes nothing |
| FdInitiator.FirmwareDataMeans | pldm-interface/src/firmware_device/fd_context.rs:898-964 | the answer to RequestFirmwareData code by code: retry, abort, short data, and data handed to the platform whose result settles the request; the whole next state |
| FdInitiator.ReportAnswerMeans | pldm-interface/src/firmware_device/fd_context.rs:966-1048 | the answer to a completion report: onward on success, failed with the recorded result otherwise; the whole next state |
| FdInitiator.LateResponseMeans | pldm-interface/src/firmware_device/fd_context.rs:873-896 | outside the phases a response that is taken is an error and refreshes T1 |
| FdCalls.DownloadAndFinish | pldm-interface/src/firmware_device/fd_context.rs:819-1213 | from an accepted component on, for any image and nonzero transfer size, handler calls deliver exactly the image and finish the component |
| FdCalls.ServedIsLegal | pldm-interface/src/firmware_device/fd_context.rs:96-1048 | every run made of handler calls is a legal run of the protocol |
| FdHandlerLaws.CommandIsEnabled | pldm-interface/src/firmware_device/fd_context.rs:96-795 | every command handler, on any payload and any platform answers, takes an action the protocol allows |
| FdHandlerLaws.ProgressIsEnabled | pldm-interface/src/firmware_device/fd_context.rs:819-871 | every progress call, on any payload and any platform answers, takes an action the protocol allows |
| FdHandlerLaws.ResponseIsEnabled | pldm-interface/src/firmware_device/fd_context.rs:873-1048 | every received response, whatever its bytes, takes an action the protocol allows |
| FdHandlerLaws.RefusalChangesNothing | pldm-interface/src/firmware_device/fd_context.rs:165-694 | a handler that returns an error, or a reply that does not grant the request, leaves state, history, reason, request record and phase record unchanged |
| FdHandlerLaws.IdleCommandsChangeNothing | pldm-interface/src/firmware_device/fd_context.rs:518-568 | the queries, GetStatus, ActivatePendingComponentImage and UpdateSecurityRevision never change anything (section 12.19 of DSP0267 1.3.0 for the last) |
| FdHandlerLaws.CommandAnswers | pldm-interface/src/firmware_device/fd_context.rs:96-795 | every reply of a command handler repeats the request's id, type and command and is marked as a response; a handler that returns an error has written nothing |
| FdHandlerLaws.GetStatusReports | pldm-interface/src/firmware_device/fd_context.rs:696-795 | in every reachable state GetStatus answers, never shows Activate as current nor a reason no run can reach, keeps progress at or below 101, and reports the force flag |
| FdHandlerLaws.TimeoutEndsTheUpdate | pldm-interface/src/firmware_device/fd_context.rs:836-853 | once T1 has passed, the next progress call whose cancel callback succeeds sends nothing and ends in Idle with that phase's reason and an unused request |
| FdHandlerLaws.ProgressOnTimeKeepsPhase | pldm-interface/src/firmware_device/fd_context.rs:855-871 | until then no progress call leaves the phase |
| FdHandlerLaws.TransferRetryRepeatsResult | pldm-interface/src/firmware_device/fd_context.rs:1057-1080 | a repeated TransferComplete carries the stored result |
| FdHandlerLaws.WorkRetrySendsGenericError | pldm-interface/src/firmware_device/fd_context.rs:1128-1162 | a repeated VerifyComplete or ApplyComplete carries and records GenericError, whatever the first one said, without asking the platform again |
| FdHandlerLaws.FailedCanBeCancelled | pldm-interface/src/firmware_device/fd_context.rs:582-602 | from a failed request both cancel commands take their cancel branch and reply with success |
| FdHandlerLaws.CancelUpdateTakesEffectIff | pldm-interface/src/firmware_device/fd_context.rs:642-694 | CancelUpdate changes the state exactly in a phase that has not applied its image; it is refused in LearnComponents and ReadyXfer |
| FdHandlerLaws.CancelledRequestIsStillMatched | pldm-interface/src/firmware_device/fd_context.rs:617-620 | a cancel keeps the request record, so a response to the cancelled request is still matched, then refused, and refreshes T1 |
| FdHandlerLaws.UpdateComponentReplyDecodesIff | pldm-interface/src/firmware_device/fd_context.rs:359-372 | the reply to UpdateComponent can be read back by the library's own decoder exactly when the agent left the opaque-data flag clear |
| FdContext.FirmwareDeviceContext.constructor | pldm-interface/src/firmware_device/fd_context.rs:85-90 | a new device is in the initial state with the default limits and an empty trace |
| FdContext.FirmwareDeviceContext.QueryDevidRsp | pldm-interface/src/firmware_device/fd_context.rs:96-133 | buffer, result, state and trace after the call are those of its specification, for any buffer and any platform answers |
| FdContext.FirmwareDeviceContext.GetFirmwareParametersRsp | pldm-interface/src/firmware_device/fd_context.rs:135-163 | buffer, result, state and trace after GetFirmwareParameters are those of its specification, through the real encoder |
| FdContext.FirmwareDeviceContext.RequestUpdateRsp | pldm-interface/src/firmware_device/fd_context.rs:165-219 | buffer, result, state and trace after RequestUpdate are those of its specification: a request that decodes and is granted sets the transfer size, gets its reply, which always fits, and moves the state |
| FdContext.FirmwareDeviceContext.PassComponentRsp | pldm-interface/src/firmware_device/fd_context.rs:221-303 | buffer, result, state and trace after PassComponentTable are those of its specification: only the last component moves the state, and only with its reply |
| FdContext.FirmwareDeviceContext.UpdateComponentRsp | pldm-interface/src/firmware_device/fd_context.rs:305-392 | buffer, result, state and trace after UpdateComponent are those of its specification: the component is stored before the platform is asked |
| FdContext.FirmwareDeviceContext.ActivateFirmwareRsp | pldm-interface/src/firmware_device/fd_context.rs:394-445 | buffer, result, state and trace after ActivateFirmware are those of its specification: the device goes idle only with a reply of success or activation not required |
| FdContext.FirmwareDeviceContext.ComponentCommandParams | pldm-interface/src/firmware_device/fd_context.rs:456-471 | a component behind a proxy is refused in the buffer; otherwise the buffer is untouched |
| FdContext.FirmwareDeviceContext.ActivatePendingComponentImageRsp | pldm-interface/src/firmware_device/fd_context.rs:473-516 | buffer and result after ActivatePendingComponentImage are those of its specification, and the state stays |
| FdContext.FirmwareDeviceContext.UpdateSecurityRevisionRsp | pldm-interface/src/firmware_device/fd_context.rs:525-568 | buffer and result after UpdateSecurityRevision are those of its specification, and the state stays |
| FdContext.FirmwareDeviceContext.CancelUpdateComponentRsp | pldm-interface/src/firmware_device/fd_context.rs:570-628 | buffer, result, state and trace after CancelUpdateComponent are those of its specification: the platform cancels before the request is even decoded, and the trace says so also when the reply then fails |
| FdContext.FirmwareDeviceContext.CancelUpdateRsp | pldm-interface/src/firmware_device/fd_context.rs:630-694 | buffer, result, state and trace after CancelUpdate are those of its specification: T1 is refreshed even when the cancel is refused, and the trace shows a cancel callback that succeeded also when a later step fails |
| FdContext.FirmwareDeviceContext.GetStatusRsp | pldm-interface/src/firmware_device/fd_context.rs:696-795 | buffer and result after GetStatus are those of its specification, and the state stays |
| FdContext.FirmwareDeviceContext.FdProgress | pldm-interface/src/firmware_device/fd_context.rs:819-871 | one progress call does what its specification says, in any reachable state; none of its `unwrap`s can fail |
| FdContext.FirmwareDeviceContext.FdProgressDownload | pldm-interface/src/firmware_device/fd_context.rs:1050-1121 | the id is allocated before steps that can fail, everything else changes only once the request is encoded |
| FdContext.FirmwareDeviceContext.FdProgressVerify | pldm-interface/src/firmware_device/fd_context.rs:1123-1165 | the verify step: progress is stored first, a finished or failed verification is sent |
| FdContext.FirmwareDeviceContext.FdProgressApply | pldm-interface/src/firmware_device/fd_context.rs:1167-1213 | the apply step |
| FdContext.FirmwareDeviceContext.ShouldSendFdRequest | pldm-interface/src/firmware_device/fd_context.rs:1215-1235 | a request may go out when ready, or once T2 has passed since it was sent |
| FdContext.FirmwareDeviceContext.HandleRsp | pldm-interface/src/firmware_device/fd_context.rs:873-896 | a response does what its specification says, in any reachable state, and the buffer is only read |
| FdContext.FirmwareDeviceContext.ProcessRequestFwDataRsp | pldm-interface/src/firmware_device/fd_context.rs:898-964 | the callback gets the stored component, the stored offset and exactly that many bytes of the payload, as recorded in the trace; its answer, an error included, decides what becomes of the request |
| FdContext.FirmwareDeviceContext.ProcessTransferCompleteRsp | pldm-interface/src/firmware_device/fd_context.rs:966-995 | the answer to TransferComplete moves on to Verify or marks the request failed |
| FdContext.FirmwareDeviceContext.ProcessVerifyCompleteRsp | pldm-interface/src/firmware_device/fd_context.rs:997-1023 | the answer to VerifyComplete moves on to Apply or marks the request failed |
| FdContext.FirmwareDeviceContext.ProcessApplyCompleteRsp | pldm-interface/src/firmware_device/fd_context.rs:1025-1048 | the answer to ApplyComplete returns to ReadyXfer or marks the request failed |
| FdContext.RefreshedWhenWaiting | pldm-interface/src/firmware_device/fd_context.rs:863-868 | after a phase step T1 is refreshed exactly when platform work goes on without an outstanding request |
| FdInternals.FdInternal.constructor | pldm-interface/src/firmware_device/fd_internal.rs:70-85 | the initial state for the given limits |
| FdInternals.FdInternal.SetFdState | pldm-interface/src/firmware_device/fd_internal.rs:91-96 | the previous state is recorded only on a real change |
| FdInternals.FdInternal.SetFdIdle | pldm-interface/src/firmware_device/fd_internal.rs:98-104 | the reason is recorded only on leaving another state |
| FdInternals.FdInternal.FdIdleTimeout | pldm-interface/src/firmware_device/fd_internal.rs:106-119 | the reason is the one of the state that timed out |
| FdInternals.FdInternal.SetXferSize | pldm-interface/src/firmware_device/fd_internal.rs:133-135 | the size is truncated to 32 bits, nothing else changes |
| FdInternals.FdInternal.SetFdReq | pldm-interface/src/firmware_device/fd_internal.rs:157-174 | the whole request record is replaced, nothing else changes |
| FdInternals.FdInternal.AllocNextInstanceId | pldm-interface/src/firmware_device/fd_internal.rs:176-183 | only the id changes: from none to 1, then up modulo 32 |
| FdInternals.FdInternal.GetFdDownloadChunk | pldm-interface/src/firmware_device/fd_internal.rs:209-227 | a chunk is granted exactly as the specification says, with u32 sums that wrap |
| FdInternals.FdInternal.SetFdDownloadState | pldm-interface/src/firmware_device/fd_internal.rs:237-242 | only a download phase record takes the chunk |
| FdInternals.FdInternal.SetFdVerifyProgress | pldm-interface/src/firmware_device/fd_internal.rs:248-252 | only a verify phase record takes the progress |
| FdInternals.FdInternal.SetFdApplyProgress | pldm-interface/src/firmware_device/fd_internal.rs:254-258 | only an apply phase record takes the progress |
| FirmwareParametersLaws.LosslessIffWellFormed | pldm-common/src/message/firmware_update/get_fw_params.rs:135-227 | an encodable value survives encoding and decoding, whatever follows it, exactly when its strings are zero-padded, its optional strings match their lengths and its unused entries are the default |
| FirmwareParametersLaws.RoundTrip | pldm-common/src/message/firmware_update/get_fw_params.rs:165-227 | decoding the encoding of a well-formed value gives it back |
| FirmwareParametersLaws.DecodedIsCanonical | pldm-common/src/message/firmware_update/get_fw_params.rs:165-227 | whatever decodes is well formed, and encoding it reproduces the bytes consumed |
| FirmwareParametersLaws.ParseOnPrefix | pldm-common/src/message/firmware_update/get_fw_params.rs:165-227 | cutting any buffer short leaves the decoder's answer unchanged or makes it BufferTooShort |
| FirmwareParametersLaws.TruncatedIsTooShort | pldm-common/src/message/firmware_update/get_fw_params.rs:165-227 | every strict prefix of an encoded value decodes to BufferTooShort |
| FirmwareParametersLaws.EntryLossless | pldm-common/src/protocol/firmware_update.rs:804-882 | a component entry survives encoding and decoding |
| FirmwareParametersLaws.EntryCanonical | pldm-common/src/protocol/firmware_update.rs:836-881 | whatever decodes as an entry encodes to the bytes consumed |
| FirmwareParametersLaws.EntryCutSafe | pldm-common/src/protocol/firmware_update.rs:836-881 | cutting an entry short leaves the answer unchanged or makes it BufferTooShort |
| FirmwareParametersCodec.EncodeParams | pldm-common/src/message/firmware_update/get_fw_params.rs:136-163 | the encoder writes the wire form and returns its length, or writes nothing |
| FirmwareParametersCodec.ParamsSize | pldm-common/src/message/firmware_update/get_fw_params.rs:121-132 | the size loop adds up the parts whatever the string lengths; on an encodable value that is the length of the wire form |
| FirmwareParametersCodec.DecodeParams | pldm-common/src/message/firmware_update/get_fw_params.rs:165-227 | the decoder reads what the specification reads, on every buffer |
| FirmwareParametersCodec.DecodeTable | pldm-common/src/message/firmware_update/get_fw_params.rs:210-218 | the table loop leaves decoded entries in front and defaults behind, or the first error |
| FirmwareParametersCodec.EncodeEntry | pldm-common/src/protocol/firmware_update.rs:805-834 | the entry encoder writes the wire form or nothing |
| FirmwareParametersCodec.DecodeEntry | pldm-common/src/protocol/firmware_update.rs:836-881 | the entry decoder reads what the specification reads |
| FirmwareParametersCodec.EncodeParamsResponse | pldm-common/src/message/firmware_update/get_fw_params.rs:261-278 | header, completion code and parameters, or nothing |
| Formats.ListLossless | pldm-common/src/message/firmware_update/get_fw_params.rs:157-160 | a list of lossless items is lossless |
| Formats.ListCanonical | pldm-common/src/message/firmware_update/get_fw_params.rs:213-218 | a decoded list encodes to the bytes consumed |
| Formats.ListCutSafe | pldm-common/src/message/firmware_update/get_fw_params.rs:213-218 | cutting a list short leaves the answer unchanged or makes it BufferTooShort |
| FirmwareStrings.FirmwareStringLosslessIff | pldm-common/src/protocol/firmware_update.rs:591-650 | a string survives encoding and decoding exactly when it is zero-padded |
| FirmwareStrings.DecodedFirmwareStringIsCanonical | pldm-common/src/protocol/firmware_update.rs:615-649 | whatever decodes as a string encodes to the bytes consumed |
| FirmwareStrings.TruncatedFirmwareStringIsTooShort | pldm-common/src/protocol/firmware_update.rs:615-649 | a truncated string is reported as too short |
| FirmwareStrings.EncodeFirmwareString | pldm-common/src/protocol/firmware_update.rs:592-613 | the encoder writes the wire form or nothing |
| FirmwareStrings.DecodeFirmwareString | pldm-common/src/protocol/firmware_update.rs:615-649 | the decoder reads what the specification reads |
| Descriptors.DescriptorLossless | pldm-common/src/protocol/firmware_update.rs:392-460 | a descriptor survives encoding and decoding |
| Descriptors.DescriptorCanonical | pldm-common/src/protocol/firmware_update.rs:425-459 | whatever decodes as a descriptor encodes to the bytes consumed |
| Descriptors.DescriptorCutSafe | pldm-common/src/protocol/firmware_update.rs:425-459 | cutting a descriptor short leaves the answer unchanged or makes it BufferTooShort |
| Descriptors.BlobLength | pldm-common/src/protocol/firmware_update.rs:375-389 | the length found by following descriptors is the length of the list that decodes, within the blob |
| DeviceIds.ConstructorAgreesWithEncoder | pldm-common/src/message/firmware_update/query_devid.rs:56-119 | the constructor's length field, the size function and the encoder count the same bytes |
| DeviceIds.LosslessIffWellFormed | pldm-common/src/message/firmware_update/query_devid.rs:121-221 | a response survives encoding and decoding exactly when it is well formed |
| DeviceIds.DecodedIsCanonical | pldm-common/src/message/firmware_update/query_devid.rs:162-220 | whatever decodes is well formed and encodes to the bytes consumed |
| DeviceIds.RoundTrip | pldm-common/src/message/firmware_update/query_devid.rs:162-220 | decoding the encoding of a well-formed response gives it back |
| DeviceIds.ParseOnPrefix | pldm-common/src/message/firmware_update/query_devid.rs:162-220 | cutting any buffer short leaves the decoder's answer unchanged or makes it BufferTooShort |
| DeviceIds.TruncatedIsTooShort | pldm-common/src/message/firmware_update/query_devid.rs:162-220 | every strict prefix of an encoded response decodes to BufferTooShort |
| DeviceIdsCodec.EncodeDescriptor | pldm-common/src/protocol/firmware_update.rs:397-419 | the descriptor encoder writes the wire form or nothing |
| DeviceIdsCodec.ResponseSize | pldm-common/src/message/firmware_update/query_devid.rs:102-118 | the size loop adds up the descriptors that would be sent, whatever their lengths; on an encodable response that is the length of the wire form |
| DeviceIdsCodec.EncodeResponse | pldm-common/src/message/firmware_update/query_devid.rs:122-160 | the encoder writes the wire form and returns its length, or writes nothing |
| DeviceIdsCodec.DecodeResponse | pldm-common/src/message/firmware_update/query_devid.rs:162-220 | the decoder reads what the specification reads, on every buffer |
| DeviceIdsCodec.DecodeAdditional | pldm-common/src/message/firmware_update/query_devid.rs:200-207 | the loop leaves decoded descriptors in front and empty ones behind, or the first error |
| UpdateMessages.RequestLosslessIff | pldm-common/src/message/firmware_update/request_update.rs:101-146 | a request ending in a version string survives encoding and decoding exactly when the string is zero-padded |
| UpdateMessages.RequestCanonical | pldm-common/src/message/firmware_update/update_component.rs:111-140 | whatever decodes encodes to the bytes consumed |
| UpdateMessages.TruncatedRequestIsTooShort | pldm-common/src/message/firmware_update/pass_component.rs:110-135 | a truncated request is reported as too short |
| UpdateMessages.ImageSetVersionOfDecoded | pldm-common/src/message/firmware_update/request_update.rs:77-92 | on a decoded request the getter's clamp never acts and it returns the string as sent |
| UpdateMessages.UpdateComponentResponseLosslessIff | pldm-common/src/message/firmware_update/update_component.rs:192-314 | the response survives encoding and decoding exactly when the opaque-data flag and the optional field agree |
| UpdateMessages.RequestUpdateResponseAgreesIff | pldm-common/src/message/firmware_update/request_update.rs:188-248 | size, encoder and decoder of the response agree exactly when the command byte is 2 if and only if the optional field is there |
| UpdateMessages.UpdateComponentResponseCanonical | pldm-common/src/message/firmware_update/update_component.rs:238-313 | whatever decodes has flag and field agreeing and encodes to the bytes consumed |
| UpdateMessages.TruncatedUpdateComponentResponseIsTooShort | pldm-common/src/message/firmware_update/update_component.rs:238-313 | every strict prefix of an encoded response whose flag and field agree is too short |
| UpdateMessages.RequestUpdateResponseCanonical | pldm-common/src/message/firmware_update/request_update.rs:220-247 | whatever decodes has command byte and field agreeing and encodes to the bytes consumed |
| UpdateMessages.TruncatedRequestUpdateResponseIsTooShort | pldm-common/src/message/firmware_update/request_update.rs:220-247 | every strict prefix of an encoded response whose command byte and field agree is too short |
| UpdateMessagesCodec.EncodeRequest | pldm-common/src/message/firmware_update/update_component.rs:94-109 | the encoder writes the wire form or nothing |
| UpdateMessagesCodec.DecodeRequest | pldm-common/src/message/firmware_update/request_update.rs:120-146 | the decoder reads what the specification reads |
| UpdateMessagesCodec.EncodeUpdateComponentResponse | pldm-common/src/message/firmware_update/update_component.rs:193-236 | the encoder writes the wire form or nothing |
| UpdateMessagesCodec.DecodeUpdateComponentResponse | pldm-common/src/message/firmware_update/update_component.rs:238-313 | the decoder reads what the specification reads |
| UpdateMessagesCodec.EncodeRequestUpdateResponse | pldm-common/src/message/firmware_update/request_update.rs:198-218 | the encoder writes the wire form, guarded only by the size function |
| UpdateMessagesCodec.DecodeRequestUpdateResponse | pldm-common/src/message/firmware_update/request_update.rs:220-247 | the decoder reads what the specification reads |
| Downstream.TwoLevelRoundTrip | pldm-common/src/message/firmware_update/query_downstream.rs:283-333 | for every list of devices with their descriptors, iterating the serialised portion yields those devices in order, and each of them its descriptors, also with bytes behind |
| Downstream.IterationIsSafe | pldm-common/src/message/firmware_update/query_downstream.rs:283-333 | on any bytes at all, at most the stated number of devices come out, each with exactly its stated number of descriptors filling its slice, and the slices are in order and disjoint |
| Downstream.YieldedIsWhole | pldm-common/src/message/firmware_update/query_downstream.rs:304-330 | a yielded device's slice is exactly its descriptors and lies inside the portion |
| DownstreamIterators.QueryDownstreamIdentifiersResponse.constructor | pldm-common/src/message/firmware_update/query_downstream.rs:205-226 | a fresh iterator has all devices to come |
| DownstreamIterators.QueryDownstreamIdentifiersResponse.Next | pldm-common/src/message/firmware_update/query_downstream.rs:283-333 | yields what remains one by one; None at the stated end starts over, None on bytes that make no sense stays |
| DownstreamIterators.QueryDownstreamIdentifiersResponse.TryAt | pldm-common/src/message/firmware_update/query_downstream.rs:269-276 | the index counts from where the iterator stands: on a fresh one the i-th device, past the end an error; the iterator does not move |
| DownstreamIterators.DownstreamDevice.constructor | pldm-common/src/message/firmware_update/query_downstream.rs:440-463 | the iterator over a yielded device has all its descriptors to come |
| DownstreamIterators.DownstreamDevice.Next | pldm-common/src/message/firmware_update/query_downstream.rs:468-503 | yields the descriptors one by one, never out of range, then None, then starts over |
| DownstreamCodec.SentDevicesArrive | pldm-common/src/message/firmware_update/query_downstream.rs:336-410 | devices put into a response, encoded, decoded and iterated come out as they went in |
| DownstreamCodec.ResponseRoundTrip | pldm-common/src/message/firmware_update/query_downstream.rs:368-409 | decoding an encoded response gives it back, with any bytes behind it added to the portion |
| DownstreamCodec.DecodedResponseIsCanonical | pldm-common/src/message/firmware_update/query_downstream.rs:368-409 | whatever decodes encodes to the whole buffer |
| DownstreamCodec.EncodeResponse | pldm-common/src/message/firmware_update/query_downstream.rs:337-366 | the encoder writes the wire form or nothing |
| DownstreamCodec.DecodeResponse | pldm-common/src/message/firmware_update/query_downstream.rs:368-409 | the decoder reads what the specification reads |
| DownstreamParameters.TableLosslessIff | pldm-common/src/message/firmware_update/query_downstream.rs:816-990 | a parameter table survives encoding and decoding exactly when its strings are zero-padded |
| DownstreamParameters.TableRoundTrip | pldm-common/src/message/firmware_update/query_downstream.rs:878-990 | decoding the encoding of a padded table gives it back, and the size function counts its bytes |
| DownstreamParameters.DecodedTableIsCanonical | pldm-common/src/message/firmware_update/query_downstream.rs:878-990 | whatever decodes encodes to the bytes consumed |
| DownstreamParameters.TruncatedTableIsTooShort | pldm-common/src/message/firmware_update/query_downstream.rs:878-990 | a truncated table is reported as too short |
| DownstreamParameters.EncodeTable | pldm-common/src/message/firmware_update/query_downstream.rs:817-876 | the encoder writes the wire form or nothing |
| DownstreamParameters.DecodeTable | pldm-common/src/message/firmware_update/query_downstream.rs:878-990 | the decoder reads what the specification reads, also between its up-front size check and the full fixed size |
| Bitmap.BitmapMeaning | pldm-common/src/message/control.rs:181-195 | a bit is set exactly when its code is listed |
| Bitmap.ConstructBitmap | pldm-common/src/message/control.rs:181-189 | the loop builds the bitmap of as many entries as it has bits |
| ControlLaws.TypesBitmapIsExact | pldm-interface/src/control_context.rs:118-132 | bit t of the GetPLDMTypes bitmap is set exactly when type t is supported, for any table: six slots are enough |
| ControlLaws.CommandsBitmapIsExact | pldm-common/src/message/control.rs:148-160 | bit c of the GetPLDMCommands bitmap is set exactly when c is among the first 256 commands |
| ControlLaws.DiscoveryAgreesWithDispatch | pldm-interface/src/control_context.rs:150-155 | with one entry per type and at most 256 commands each, the bitmap is exactly what dispatch accepts |
| ControlLaws.AdvertisedAgreesIff | pldm-interface/src/control_context.rs:86-95 | in general they agree exactly when the first entry with that version and the first entry of the type list the same commands |
| ControlLaws.SecondVersionIsNotDispatched | pldm-interface/src/control_context.rs:150-155 | a table in which a command is advertised for a second version and refused by dispatch |
| ControlLaws.DiscoveryIsExact | pldm-interface/src/control_context.rs:220-326 | asking for the version of a supported type and then for its commands tells exactly which commands dispatch accepts, for any table whose first entry of the type lists at most 256 |
| ControlLaws.DirectReplies | pldm-interface/src/control_context.rs:180-218 | the replies to GetTID, SetTID and GetPLDMTypes byte by byte; without room for one nothing is written |
| ControlLaws.VersionRefusals | pldm-interface/src/control_context.rs:269-326 | what GetPLDMVersion refuses, with which code |
| ControlLaws.CommandsRefusals | pldm-interface/src/control_context.rs:220-267 | what GetPLDMCommands refuses, with which code |
| ControlLaws.ControlAnswers | pldm-interface/src/control_context.rs:180-327 | every control reply repeats the request's id, type and command; an error writes nothing |
| ControlContexts.ControlContext.constructor | pldm-interface/src/control_context.rs:71-76 | a new context is unassigned |
| ControlContexts.ControlContext.GetSupportedTypes | pldm-interface/src/control_context.rs:118-132 | the array ends up with the distinct types in table order, as far as it reaches |
| ControlContexts.ControlContext.GetProtocolVersions | pldm-interface/src/control_context.rs:97-116 | the array ends up with the versions of the type in table order, as far as it reaches |
| ControlContexts.ControlContext.GetTidRsp | pldm-interface/src/control_context.rs:181-192 | buffer and result are those of the specification; a reply that does not fit is an error without a reply |
| ControlContexts.ControlContext.SetTidRsp | pldm-interface/src/control_context.rs:194-203 | the id is the one in the request, or unchanged when the request is short |
| ControlContexts.ControlContext.GetPldmTypesRsp | pldm-interface/src/control_context.rs:205-218 | buffer and result are those of the specification, through the real loops |
| ControlContexts.ControlContext.GetPldmCommandsRsp | pldm-interface/src/control_context.rs:220-267 | buffer and result after GetPLDMCommands are those of the specification; the lookup that is unwrapped cannot fail |
| ControlContexts.ControlContext.GetPldmVersionRsp | pldm-interface/src/control_context.rs:269-326 | buffer and result after GetPLDMVersion are those of the specification: the version is the first one of the type |
| CmdInterfaces.ProcessAnswers | pldm-interface/src/cmd_interface.rs:115-149 | whatever bytes arrive, a reply repeats id, type and command and is marked as a response, and without a reply the payload is as it was |
| DispatchRuns.UpdateThroughDispatch | pldm-interface/src/cmd_interface.rs:115-206 | a whole update whose commands are processed as requests, on any table that lists them: every one is granted, exactly the image is delivered, and the device ends idle with the component activated |
| DispatchRuns.ServedIsRouted | pldm-interface/src/cmd_interface.rs:170-206 | every run of handler calls whose commands arrive as listed requests is a run through dispatch |
| DispatchRuns.ListedIsDispatched | pldm-interface/src/cmd_interface.rs:135-137 | a listed firmware-update request takes its handler's action and gets its handler's reply |
| DispatchRuns.StatusThroughDispatch | pldm-interface/src/cmd_interface.rs:170-206 | a listed GetStatus returns the device's state and previous state |
| DispatchRuns.LastSetTidCounts | pldm-interface/src/cmd_interface.rs:151-168 | after any requests GetTID returns the id of the last SetTID |
| DispatchRuns.TypesPredictDispatch | pldm-interface/src/cmd_interface.rs:208-231 | bit t of a processed GetPLDMTypes is set exactly when a request of type t is not refused for its type |
| DispatchRuns.DiscoveryPredictsDispatch | pldm-interface/src/cmd_interface.rs:208-231 | two processed discovery requests tell of every firmware-update request whether it reaches the device |
| DispatchRuns.MalformedIsRefused | pldm-interface/src/cmd_interface.rs:208-219 | a short, unmarked or wrongly versioned header is refused with INVALID_DATA and changes nothing |
| CmdInterfaces.UnlistedIsRefused | pldm-interface/src/cmd_interface.rs:208-231 | an unlisted type or command is refused with its code and reaches neither the device nor the terminus id |
| CmdInterfaces.CmdInterface.constructor | pldm-interface/src/cmd_interface.rs:62-72 | a new interface is not busy |
| CmdInterfaces.CmdInterface.ProcessRequest | pldm-interface/src/cmd_interface.rs:115-149 | a busy interface refuses and changes nothing; otherwise the buffer holds the reply behind the transport byte, a returned length lies within the buffer, and busy is clear again |
| CmdInterfaces.CmdInterface.PreprocessRequest | pldm-interface/src/cmd_interface.rs:208-231 | what is passed and what is refused, with which code |
| CmdInterfaces.CmdInterface.ProcessControlCmd | pldm-interface/src/cmd_interface.rs:151-168 | each opcode reaches its responder |
| CmdInterfaces.CmdInterface.ProcessFwUpdateCmd | pldm-interface/src/cmd_interface.rs:170-206 | each opcode reaches its handler, all others are refused |
| Payloads.GenerateFailureResponse | pldm-interface/src/cmd_interface.rs:32-42 | a four-byte failure reply with the request bit cleared, or an error and an untouched buffer |
| Payloads.FinishReply | pldm-interface/src/firmware_device/fd_context.rs:126-131 | a response that did not fit becomes an INVALID_LENGTH failure reply |
| Base.FailureEchoes | pldm-interface/src/cmd_interface.rs:32-42 | a failure reply repeats the request's header and carries the code |
| Base.RespondEchoes | pldm-interface/src/firmware_device/fd_context.rs:126-131 | a response with the request's id, type and command, or the failure reply in its place, answers the request |
| Versions.ParseRendered | pldm-common/src/protocol/version.rs:55-112 | parsing what was rendered from fields gives those fields; a missing update reads as 0xFF |
| Versions.Ver32RoundTripIff | pldm-common/src/protocol/version.rs:125-180 | a version survives the 32-bit BCD form exactly when major, minor and a present update are below 150 |
| Versions.BcdByteRoundTripIff | pldm-common/src/protocol/version.rs:126-144 | one BCD byte is read back exactly when the number is below 150 |
| Versions.RenderedVersionSurvives | pldm-common/src/protocol/version.rs:55-180 | a rendered version with fields below 150 comes back through string and word: major, minor, update and letter |
| Versions.SplitJoins | pldm-common/src/protocol/version.rs:55-70 | splitting at dots loses nothing: the parts hold no dots and joined they are the string |
| Versions.ParsedFields | pldm-common/src/protocol/version.rs:55-112 | only strings with one or two dots parse, and each field is the number that stands there |
| Versions.DigitsAppend | pldm-common/src/protocol/version.rs:55-112 | a field is read as a decimal number of at most 255 |
| Layouts.EntryLayout | pldm-common/src/protocol/firmware_update.rs:691-716 | each field of a component entry at its byte position, strings without padding |
| Layouts.ParamsLayout | pldm-common/src/message/firmware_update/get_fw_params.rs:44-80 | each field of the firmware parameters at its byte position, then the entries |
| Layouts.DescriptorLayout | pldm-common/src/protocol/firmware_update.rs:305-312 | type, length and data of a descriptor at their byte positions |
| Layouts.DeviceIdsLayout | pldm-common/src/message/firmware_update/query_devid.rs:44-60 | each field of the device identifiers response at its byte position |
| Layouts.DownstreamLayout | pldm-common/src/message/firmware_update/query_downstream.rs:336-366 | each field of the downstream identifiers response at its byte position |
| Layouts.PortionLayout | pldm-common/src/message/firmware_update/query_downstream.rs:336-410 | portion header and first device at their byte positions |
| Layouts.DownstreamTableLayout | pldm-common/src/message/firmware_update/query_downstream.rs:816-876 | each field of a downstream parameter table at its byte position |
| Layouts.UpdateComponentResponseLayout | pldm-common/src/message/firmware_update/update_component.rs:192-236 | each field of the response at its byte position |
| Layouts.RequestUpdateResponseLayout | pldm-common/src/message/firmware_update/request_update.rs:188-218 | each field of the response at its byte position |
| Layouts.VersionWordLayout | pldm-common/src/protocol/version.rs:125-160 | a version word shows the decimal digits of major, minor and update from the top byte down, and the letter |

## Left out

- Platform work behind the callbacks (flash, verification, activation): only its answers are modelled.
- A callback that writes into its out-parameter and then fails: the answer is a value or an error, which is what the handlers make of it.
- MCTP framing beyond the one byte in front of a payload, the transport loop, `generate_initiator_request` and `process_initiator_response`: thin wrappers around progress and response.
- Fixed-size messages that use the blanket codec are byte sequences of their layout; enum conversion tables are definitions where a handler needs them.
- `VendorDefined` transfer results and component response codes: their casts do not survive the `unwrap` that follows, so the types of the platform's answers exclude them.
- CmdInterfaces.CmdInterface.ProcessRequest: requires a nonempty buffer and a table naming only Base and FwUpdate, because the original panics on anything else.
- CmdInterfaces.ProcessAnswers: requires such a table too, for the same reason.
- UpdateMessagesCodec.EncodeRequestUpdateResponse: requires a field the size function does not count to fit the buffer anyway, because the original panics where it does not.
- u32 sums in the chunk check wrap, as in a release build; a debug build panics instead.
- Atomics: handlers run one at a time, so the terminus id and the busy flag are plain fields.
- `DownstreamDevice::new` and `encode`, whose count is a byte length, and iterating a `DownstreamDevice::decode` result that no response iterator has checked.
- The portion wrapper around DownstreamDeviceParameterTable, which adds two fixed fields.
- `RequestFirmwareDataResponse::encode`, which writes its header before its size check; the device never sends it.
- The unreachable bounds checks inside the two iterators are asserted, not branched on.
- Encoders of values whose length fields exceed their arrays: the original panics, the encoders here require the lengths to fit.
- FdContext.FirmwareDeviceContext.SetFdT1Ts: public in the original, but here it takes no part in a run; callers are taken not to refresh T1 themselves, and the timer theorems rely on that.
- Version strings outside ASCII.
- The host is little-endian, as the packed headers of the original assume.
- Firmware component ordering and update eligibility, and the requests an update agent would build.
