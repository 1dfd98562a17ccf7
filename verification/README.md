# Arcen: a verified model of its hardest logic

Arcen is a remote-desktop system. This project models, in Dafny 4.11, the parts of it whose
correctness rests on an argument rather than on a line of code, and proves those arguments for
every input, every order of calls and every interleaving.

| files | what they model |
|---|---|
| `ConversionPool.dfy`, `ConversionPoolProgress.dfy` | The conversion thread pool as a transition system: one caller, any number of workers, one mutex, two condition variables, spurious wakeups, wrapping generations. Safety over every schedule, then progress. |
| `Reconnect.dfy`, `ReconnectController.dfy`, `ReconnectRuns.dfy`, `ReconnectCalls.dfy` | The reconnect controller: the effect of one call, the object that applies it in place with a ghost history, what every history satisfies, and when each call succeeds. |
| `ReverseClosure.dfy`, `ContractGate.dfy`, `ChangeImpact.dfy`, `TargetTriples.dfy`, `GateTheorems.dfy`, `GateRecords.dfy` | The change-impact gate over shared contracts, and what passing it means for one change and for chains of changes, down to single records. |
| `AnnexB.dfy`, `Avcc.dfy`, `Framing.dfy`, `AccessUnits.dfy` | Bitstream framing, in both directions, and the grouping of a stream into decodable samples. |
| `Calendar.dfy` | Day numbers to Gregorian dates. |
| `UsbHelper.dfy`, `UsbHello.dfy`, `UsbHandshake.dfy` | The USB helper's incremental framing, its handshake, and the handshake over the wire. |
| `CaptureQueue.dfy`, `RecvWakeups.dfy`, `Normalizer.dfy` | Microphone capture: the bounded queue, waiting on it, and the resampler that feeds it. |
| `Text.dfy`, `ProbeArgs.dfy`, `ProbeTrace.dfy` | The admission probe: request to arguments to options, and run to report to trace. |
| `Python.dfy`, `Cpio.dfy`, `CpioLoop.dfy`, `CpioWriting.dfy`, `ShippedPackages.dfy`, `BinaryScan.dfy` | Three release tools: stripping an archive, with the Python it depends on and the loop on every input, walking a dependency graph, scanning a binary in chunks. |
| `Wrappers.dfy`, `Arithmetic.dfy`, `Bytes.dfy` | Option and Result, quotients, byte order and concatenation. |

Code that updates state in place is a class or a method with a loop, proved against a function of
the old state; what the source promises is then proved about those functions. Time, randomness,
the encoder's answers, the sizes of reads and the moments at which a future is dropped are
parameters, so every theorem holds for all of them.

## Where the code does not do what it says

Each of these is kept as the code has it, with a concrete failing input and the exact condition.

- The pool compares a worker's last generation with the current one modulo 2^64. A worker that
  sleeps through 2^64 - 1 generations it takes no part in and is then needed does not notice:
  `run` never returns. `HangIsReachable` gives the schedule, `LappedRunHangs` shows that no
  schedule gets out of it, and `RunCanReturnIff` that this is the only way to hang.
- The reconnect controller measures an attempt's gap from the loss. When `schedule` fails for want
  of randomness while the session is still attached, it leaves the loss anchor behind, and an
  attached refresh clears only the deadline. The next outage then starts with an old anchor, and an attempt can be issued
  whose gap exceeds its window (`LateAttemptExists`). `TimelyIff` says exactly when, over every
  history: when the deadline in force was set by a `schedule` that found an older anchor.
  `StaleOrigin` shows the one way to such an anchor.
- A cancel or terminal failure clears the controller's nonce for good: attempts issued under a later
  grant carry an empty one (`EmptyNonceExists`). `NonceIsGivenOrGone` says exactly when.
- The system jitter source draws whole milliseconds and counts them in 64 bits, so it meets its
  contract exactly for a minimum of whole milliseconds and a width below 2^64 - 1 of them
  (`SystemJitterMeetsBoundsIff`). Asked for at least one nanosecond it can answer none
  (`SystemJitterCanUndershoot`), and asked for the widest range it does not answer
  (`SystemJitterCanRefuse`). Every question the backoff asks is of the right kind
  (`SystemJitterServesBackoff`).
- `nals_to_avcc` truncates a length to 32 bits. `RoundTripIff` shows that the trip through AVCC and
  Annex-B gives the units back exactly if each can be framed and is shorter than 2^32 bytes, and
  `LongUnitIsLost` gives a unit that is lost.
- `read_odc` takes sizes from Python's `int`, which accepts a sign. A negative size can send its loop
  back to a position it has been at, and it then never ends: `NeverEnds` gives such a header.
  `ReadTerminatesIff` shows that this is the only way, and `LoopTerminatesIff` that it shows within
  2n + 2 rounds on an archive of n bytes.

## Model

| member | source | states |
|---|---|---|
| ConversionPool.StepKeepsCounted | hosts/capenc/src/conversion_pool.rs:103-121 | Every step of every thread keeps `remaining` equal to the number of participants that have not finished the current generation, so the decrement never underflows. |
| ConversionPool.StepKeepsBorrow | hosts/capenc/src/conversion_pool.rs:97-128 | Every step keeps: a task is stored exactly while a `run` is in progress, and a worker that uses one takes part in the current generation and uses the closure lent by that very call. |
| ConversionPool.ClosedRunsAreFixed | hosts/capenc/src/conversion_pool.rs:84-128 | No step changes the record of a call that is over. |
| ConversionPool.StepKeepsClosed | hosts/capenc/src/conversion_pool.rs:84-128 | If the returning step keeps its promise, every step leaves every call that is over with its promise kept; refused and inline calls included. |
| ConversionPool.StepKeepsOpen | hosts/capenc/src/conversion_pool.rs:84-182 | The call in progress has been made once for exactly the indices whose thread is past its call, and a panic is remembered somewhere exactly if one of its own calls panicked. |
| ConversionPool.StepKeepsPanicSeen | hosts/capenc/src/conversion_pool.rs:108-127 | Within a generation, a panic seen stays visible in `panicked`, in the caller or in a finishing worker, and only a panicking call makes it so. |
| ConversionPool.ReturnIsKept | hosts/capenc/src/conversion_pool.rs:112-127 | When the caller finds `remaining` zero, its task has been called with each index below `tasks` once, and it fails exactly if one of those calls panicked. |
| ConversionPool.StepKeepsInv | hosts/capenc/src/conversion_pool.rs:84-182 | The whole invariant survives every enabled step of the caller and of every worker, spurious wakeups included. |
| ConversionPool.ReachableInv | hosts/capenc/src/conversion_pool.rs:48-182 | The invariant holds after every schedule of a fresh pool of any size. |
| ConversionPool.ScheduleRecords | hosts/capenc/src/conversion_pool.rs:84-128 | The pool's record of its calls is what an observer of the schedule alone sees: one entry per request, in order, with the number of tasks asked for and the calls and panics made for it. |
| ConversionPool.EveryRunIsExact | hosts/capenc/src/conversion_pool.rs:84-128 | In every interleaving there is one record per request; each request that is over was refused exactly if it asked for more tasks than threads and then called nothing, else called its closure exactly once per index, and ended in an error exactly if one of its own calls panicked. |
| ConversionPool.BorrowOutlivesEveryUse | hosts/capenc/src/conversion_pool.rs:9-11 | A worker that holds or finishes a task uses the one of the call in flight, that call cannot leave before the worker has decremented, and between calls nobody holds a task. |
| ConversionPoolProgress.InternalStepsLowerWork | hosts/capenc/src/conversion_pool.rs:84-182 | Every step that is neither a wakeup out of nowhere nor a new request lowers a measure over program counters. |
| ConversionPoolProgress.InternalStepsAreBounded | hosts/capenc/src/conversion_pool.rs:84-182 | Between two requests the threads take no more steps than that measure plus one per spurious wakeup. |
| ConversionPoolProgress.NoWakeupIsLost | hosts/capenc/src/conversion_pool.rs:109-121 | In every reachable state a worker parked although it has something to do has a notify still to come; a caller parked on `done` waits for `remaining` workers, each of which can take a step unless it was lapped, and the last decrement wakes it. |
| ConversionPoolProgress.SomeThreadMoves | hosts/capenc/src/conversion_pool.rs:103-182 | While a `run` with no lapped participant or a drop is in progress, some thread can take a step that is not a spurious wakeup. |
| ConversionPoolProgress.RunFinishes | hosts/capenc/src/conversion_pool.rs:84-128 | However a `run` is scheduled, while it has not returned a thread can move, and the threads move fewer than 6n + 4 times plus the spurious wakeups; n is the number of workers. |
| ConversionPoolProgress.DropFinishes | hosts/capenc/src/conversion_pool.rs:131-139 | However dropping is scheduled, while it has not finished a thread can move, and they move fewer than 7n + 3 times plus the spurious wakeups, whether workers are asleep, busy or lapped. |
| ConversionPoolProgress.DropJoinsAll | hosts/capenc/src/conversion_pool.rs:131-139 | When dropping is over, every worker has exited. |
| ConversionPoolProgress.PublishLapsNobodyIff | hosts/capenc/src/conversion_pool.rs:103-110 | A new generation is visible to all its participants exactly if none of them is a multiple of 2^64 generations behind. |
| ConversionPoolProgress.LappedRunHangs | hosts/capenc/src/conversion_pool.rs:150-168 | A `run` one of whose participants has been lapped never returns, whatever the schedule. |
| ConversionPoolProgress.RunCanReturnIff | hosts/capenc/src/conversion_pool.rs:84-168 | A `run` can return exactly if its generation is distinguishable for every participant when it is published. |
| ConversionPoolProgress.HangIsReachable | hosts/capenc/src/conversion_pool.rs:103-104 | A schedule of a pool of three threads after which the next `run` of three tasks hangs. |
| Reconnect.BackoffIsCappedDoubling | clients/macos/src/reconnect.rs:618-624 | The base delay of attempt n is min(250 * 2^(n-1), 5000) ms for every n of at least 1, where the shift overflows too. |
| Reconnect.HalfValues | clients/macos/src/reconnect.rs:618-624 | The least delay of every attempt, in closed form. |
| Reconnect.SystemJitterMeetsBoundsIff | clients/macos/src/reconnect.rs:45-63 | For every pair of bounds: the system jitter source answers within them for every random word exactly if the minimum is at most the maximum and a whole number of milliseconds, and the maximum and the width in milliseconds fit 64 bits. |
| Reconnect.SystemJitterCanUndershoot | clients/macos/src/reconnect.rs:52-63 | Asked for at least one nanosecond, a random word of 0 makes it answer none. |
| Reconnect.SystemJitterCanRefuse | clients/macos/src/reconnect.rs:54-56 | Asked for a range of 2^64 - 1 ms it does not answer, although the minimum is a whole number of milliseconds. |
| Reconnect.SystemJitterReaches | clients/macos/src/reconnect.rs:52-63 | Every whole millisecond between answerable bounds is drawn by some random word. |
| Reconnect.SystemJitterServesBackoff | clients/macos/src/reconnect.rs:45-63 | It always answers within the bounds that `schedule` asks for. |
| Controller.ReconnectController.constructor | clients/macos/src/reconnect.rs:246-257 | A fresh controller has the empty history of the state made from its arguments. |
| Controller.ReconnectController.IsInvariant | clients/macos/src/reconnect.rs:246-604 | Every valid controller object satisfies the invariant of all histories. |
| Controller.ReconnectController.StaysClosed | clients/macos/src/reconnect.rs:589-604 | A cancelled or failed controller object issues nothing, whatever is called, until an acceptable grant reopens it. |
| Controller.ReconnectController.AttemptCarries | clients/macos/src/reconnect.rs:484-553 | What a controller object hands out next carries the last handover, its identity, generation and nonce, and a gap below the window unless its deadline was set at an older anchor. |
| Controller.ReconnectController.AcceptInitial | clients/macos/src/reconnect.rs:279-331 | The fields become, and the result is, what one more `accept_initial` in the history makes of them, on every branch. |
| Controller.ReconnectController.AcceptResume | clients/macos/src/reconnect.rs:333-378 | The same for `accept_resume`, expiry first. |
| Controller.ReconnectController.AcceptRefresh | clients/macos/src/reconnect.rs:380-420 | The same for `accept_refresh`. |
| Controller.ReconnectController.Schedule | clients/macos/src/reconnect.rs:422-468 | The same for `schedule`, with the jitter source's answer as a parameter. |
| Controller.ReconnectController.RetryNow | clients/macos/src/reconnect.rs:470-482 | The same for `retry_now`. |
| Controller.ReconnectController.TakeDue | clients/macos/src/reconnect.rs:484-553 | The same for `take_due`. |
| Controller.ReconnectController.ResumeBudget | clients/macos/src/reconnect.rs:555-565 | Succeeds exactly while a resume is in flight before its deadline, with the time left. |
| Controller.ReconnectController.Expire | clients/macos/src/reconnect.rs:574-587 | The same for `expire`. |
| Controller.ReconnectController.ManualCancel | clients/macos/src/reconnect.rs:589-595 | The same for a cancel. |
| Controller.ReconnectController.MakeTerminal | clients/macos/src/reconnect.rs:597-603 | The same for a terminal failure. |
| ReconnectCalls.InitialOutcome | clients/macos/src/reconnect.rs:279-331 | Every answer of `accept_initial`, in every state and for every grant and window, with what it leaves; a refusal changes nothing. |
| ReconnectCalls.ResumeOutcome | clients/macos/src/reconnect.rs:333-378 | `accept_resume` succeeds exactly for a resumed answer with an acceptable successor grant, a held credential and a deadline not passed; it then leaves a fresh connected state with the grant handed over. |
| ReconnectCalls.RefreshOutcome | clients/macos/src/reconnect.rs:380-420 | `accept_refresh` succeeds exactly for a first-hand answer with an acceptable grant while connected and holding a credential; it leaves the loss anchor alone. |
| ReconnectCalls.ScheduleOutcome | clients/macos/src/reconnect.rs:422-468 | `schedule` succeeds exactly if a credential is held, the jitter source answers and the retry comes before a representable deadline; anchor, deadline, attempt number and error text are those of the outage. |
| ReconnectCalls.RetryNowOutcome | clients/macos/src/reconnect.rs:470-482 | `retry_now` succeeds exactly while a retry is scheduled before its deadline, and moves nothing but its moment. |
| ReconnectCalls.RetryNowIsDue | clients/macos/src/reconnect.rs:470-553 | After it, `take_due` at that moment issues an attempt. |
| ReconnectCalls.NothingIsDue | clients/macos/src/reconnect.rs:484-519 | Without a scheduled retry `take_due` does nothing, whatever identity it is given. |
| ReconnectCalls.IssuingResumes | clients/macos/src/reconnect.rs:538-553 | An issued attempt changes nothing but the phase, and keeps its number, deadline and error text. |
| ReconnectCalls.ExpireOutcome | clients/macos/src/reconnect.rs:574-587 | `expire` ends an outage exactly once its deadline has come. |
| ReconnectCalls.ForgettingOutcome | clients/macos/src/reconnect.rs:589-604 | A cancel and a terminal failure forget everything but generation and identity. |
| ReconnectCalls.ResumedOutageIsUndone | clients/macos/src/reconnect.rs:333-553 | An outage resumed in time leaves nothing behind but the successor grant. |
| ReconnectRuns.StepKeepsInv | clients/macos/src/reconnect.rs:279-604 | Every call, with any arguments and at any time, keeps: a held credential has a nonempty grant, a window of at most two hours and the controller's own identity and nonce; an outage has a credential, a loss anchor and its deadline; a retry lies before the deadline; without a credential both anchors are clear. |
| ReconnectRuns.EveryHistory | clients/macos/src/reconnect.rs:246-604 | That invariant holds after every finite history of calls on every fresh controller. |
| ReconnectRuns.TakeDueOutcome | clients/macos/src/reconnect.rs:484-553 | While a retry is scheduled, the outcome of `take_due` depends on the arguments and the clock alone: the fallbacks for missing anchors are dead. |
| ReconnectRuns.ClosedUntilReopened | clients/macos/src/reconnect.rs:589-604 | After a cancel or a terminal failure no call issues an attempt, until `accept_initial` brings an acceptable grant. |
| ReconnectRuns.HeldGrantIsLastAccepted | clients/macos/src/reconnect.rs:101-139 | In every history a held grant, its window and its session identifier are those of the last accepted handover. |
| ReconnectRuns.AttemptsAreNumbered | clients/macos/src/reconnect.rs:461-466 | In every history the attempt number is the number of retries scheduled since a host last accepted, saturating at 2^32 - 1. |
| ReconnectRuns.DeadlineNeverMoves | clients/macos/src/reconnect.rs:422-468 | While an outage lasts neither its start nor its deadline moves, whatever is called. |
| ReconnectRuns.AnchorIsTheLoss | clients/macos/src/reconnect.rs:422-440 | If the jitter source always answers, the loss anchor is the moment of the outage's first `schedule`. |
| ReconnectRuns.NonceIsGivenOrGone | clients/macos/src/reconnect.rs:422-604 | In every history the nonce is the one given to `new`, or empty exactly if some call met a condition known before it that drops the secret: a cancel, a terminal failure, a deadline passed, a mismatch when due, or a retry that cannot fit; no later grant brings it back. |
| ReconnectRuns.EmptyNonceExists | clients/macos/src/reconnect.rs:589-595 | A history of four calls that issues an attempt with an empty nonce. |
| ReconnectRuns.AttemptsAreTimely | clients/macos/src/reconnect.rs:484-553 | Every issued attempt of every history carries the last accepted grant and session, the nonce, identity, generation and its number; its gap is below the window unless the deadline in force was set at an older anchor; if the jitter source always answers that never happens and the gap is the time since the loss. |
| ReconnectRuns.CoherentIff | clients/macos/src/reconnect.rs:422-468 | In every history the deadline lies within one window of the anchor exactly if the `schedule` that set it found no older anchor. |
| ReconnectRuns.TimelyIff | clients/macos/src/reconnect.rs:422-553 | In every history with a retry scheduled, every attempt that can be issued has a gap below the window exactly under that condition. |
| ReconnectRuns.StaleScheduleIsLate | clients/macos/src/reconnect.rs:422-468 | A `schedule` that succeeds at an older anchor always makes a late attempt possible. |
| ReconnectRuns.NoStaleScheduleNoStaleAnchor | clients/macos/src/reconnect.rs:422-468 | A history none of whose `schedule` calls finds an older anchor never has such a deadline, unanswered ones included. |
| ReconnectRuns.AnsweredIsNeverStale | clients/macos/src/reconnect.rs:422-468 | If the jitter source always answers, no `schedule` finds an older anchor. |
| ReconnectRuns.StaleOrigin | clients/macos/src/reconnect.rs:380-468 | Whenever an anchor is left without a deadline, some earlier `schedule` went unanswered and a later refresh succeeded. |
| ReconnectRuns.LateAttemptPossibleIff | clients/macos/src/reconnect.rs:484-553 | With a retry scheduled, an attempt with a gap of at least the window can be issued exactly if the deadline lies more than a window after the loss anchor. |
| ReconnectRuns.ScheduleIsCoherentIff | clients/macos/src/reconnect.rs:422-468 | A successful `schedule` keeps the deadline within one window of the anchor exactly if it found no earlier anchor without a deadline. |
| ReconnectRuns.OtherCallsStayCoherent | clients/macos/src/reconnect.rs:380-420 | No other call breaks that, and the only one that leaves an anchor without a deadline is a refresh while attached with a deadline set. |
| ReconnectRuns.LateAttemptExists | clients/macos/src/reconnect.rs:411-420 | A history that issues an attempt whose gap is more than ten times its window. |
| ReconnectRuns.LeastWaitClosedForm | clients/macos/src/reconnect.rs:618-624 | The least total delay of the first n attempts is 3875 + 2500 (n - 5) ms for n of at least 5. |
| ReconnectRuns.HistoryIsPaced | clients/macos/src/reconnect.rs:422-553 | With a monotone clock, kept jitter bounds and no `retry_now`, an outage that has issued n attempts has lasted at least that total. |
| ReconnectRuns.AttemptsAreBounded | clients/macos/src/reconnect.rs:422-553 | Under the same conditions the attempts of one outage fit into the granted window; no history has more than 2883 in one outage. |
| ReconnectRuns.BoundIsReached | clients/macos/src/reconnect.rs:422-553 | For every generation, identity and nonce there is such a history with exactly 2883. |
| ReverseClosure.Closure | scripts/check_shared_contracts.py:452-464 | The worklist returns exactly the packages from which some chain of edges leads to the start set, cycles or not. |
| ContractGate.DefinitionStatus | scripts/check_shared_contracts.py:1340-1381 | The loop, test by test, gives the worst result of the records for exactly this validation, revision, target and feature set. |
| ContractGate.Evaluate | scripts/check_shared_contracts.py:1839-1897 | Mandatory exactly if the head or the differing base definition says so; passed exactly if evidence was supplied and both pass; otherwise the worst that either shows. |
| TargetTriples.TripleIff | scripts/check_shared_contracts.py:341 | A target counts as a triple exactly if it is three or four nonempty words of lower-case letters, digits and underscores joined by dashes, a final newline aside. |
| GateTheorems.StatusIff | scripts/check_shared_contracts.py:1361-1381 | In the records' own fields: failed exactly if a record of this validation, revision, target and features failed; blocked exactly if none failed and one is blocked; not run exactly if there is none of the three. |
| GateTheorems.PassedIffMet | scripts/check_shared_contracts.py:1361-1381 | In the records' own fields: passed exactly if such a record passed and none failed or was blocked. |
| ChangeImpact.RegisterReferences | scripts/check_shared_contracts.py:1739-1751 | Collects exactly the (path ID, validation) and own-validation obligations of a revision's registers. |
| ChangeImpact.DroppedRequirements | scripts/check_shared_contracts.py:1754-1794 | Reports exactly the validations with an obligation at the base that the head no longer has, unnamed paths and retired definitions included. |
| ChangeImpact.WeakenedDefinitions | scripts/check_shared_contracts.py:1797-1831 | Reports exactly the validations whose definition changed in any way other than by becoming mandatory. |
| ChangeImpact.AskedFor | scripts/check_shared_contracts.py:1629-1691 | The validations asked for are exactly those demanded by an affected shared crate or by an affected product, at the base or at the head. |
| ChangeImpact.ComputeImpact | scripts/check_shared_contracts.py:1629-1737 | Fails exactly without a head catalogue; otherwise requirements, retired and weakened validations are exactly what their definitions say. |
| ChangeImpact.Missing | scripts/check_shared_contracts.py:1900-1981 | The gate reports exactly the mandatory requirements that have not passed and the retired or weakened validations nobody acknowledged. |
| GateTheorems.DemandIsMet | scripts/check_shared_contracts.py:1839-1981 | If the gate is open, every demanded validation is met under both definitions at the head revision, or advisory in both, or retired and acknowledged. |
| GateTheorems.OpenIff | scripts/check_shared_contracts.py:1864-1981 | The gate is open exactly if every demand the head defines is met or advisory, every other demand is acknowledged, and so is everything dropped or weakened. |
| GateTheorems.ProductsAreValidated | scripts/check_shared_contracts.py:1629-1691 | If the gate is open, that holds of every validation on a base or head path of every product in the reverse closure, unless it is a hardware validation of a product that a shared crate's register already covers. |
| GateTheorems.CratesAreValidated | scripts/check_shared_contracts.py:1629-1691 | The same for every affected shared crate. |
| GateRecords.AffectedIff | scripts/check_shared_contracts.py:1583-1640 | A package is affected exactly if a chain of Cargo or embedding edges of either revision leads from it to a changed crate or to a package that compiles in a changed file. |
| GateRecords.DemandedIff | scripts/check_shared_contracts.py:1629-1691 | A validation is demanded exactly if the register of an affected shared crate asks for it on a record that counts, or a record of either revision lists it for an affected product (hardware only if no affected crate has a record for the product), or it is the one for changed registers. |
| GateRecords.EveryRecordIsValidated | scripts/check_shared_contracts.py:1629-1981 | Record by record: an open gate means every validation but a hardware one that any record lists for a product on such a chain is met under both definitions, or advisory in both, or retired and acknowledged. |
| GateTheorems.LossKeepsGateClosed | scripts/check_shared_contracts.py:1754-1831 | Losing or loosening any obligation of an unacknowledged validation keeps the gate closed. |
| GateTheorems.ReportedIff | scripts/check_shared_contracts.py:1754-1831 | What is reported as dropped or weakened is exactly what does not persist, and every path without an identifier. |
| GateTheorems.StepPersists | scripts/check_shared_contracts.py:1739-1981 | Through one open gate, every obligation of an unacknowledged validation persists, with kind, target, features and command unchanged and `mandatory` never lost. |
| GateTheorems.ObligationsOutliveChains | scripts/check_shared_contracts.py:1739-1981 | The same along every finite chain of gated changes, from the first revision to the last. |
| GateRecords.RecordsOutliveChains | scripts/check_shared_contracts.py:1739-1981 | Record by record: a validation listed on a path of the first revision is listed on a path with the same identifier in the last. |
| AnnexB.FindStartCode | clients/macos/src/probe_matrix.rs:699-711 | Finds the first mark at or after a position, with the zero before it exactly if there is one; finds nothing exactly if there is none. |
| AnnexB.PushTrimmedNal | clients/macos/src/probe_matrix.rs:717-725 | Pushes the unit without its trailing zeros, and nothing if only zeros are there. |
| AnnexB.SplitAnnexB | clients/macos/src/probe_matrix.rs:735-753 | The loop computes the reference splitting: cut at every mark, trim, drop what is empty; a buffer without a mark is one bare unit. |
| Avcc.NalsToAvcc | clients/macos/src/probe_matrix.rs:758-766 | Writes every unit behind its length modulo 2^32. |
| Avcc.AvccToAnnexB | hosts/capenc/src/annexb.rs:18-41 | Appends a start code and the bytes of every unit read, skips empty ones, and reports the error the input runs into, keeping what came before it. |
| Framing.SplitAtMark | clients/macos/src/probe_matrix.rs:735-753 | Splitting distributes over a start code between any two byte strings. |
| Framing.StreamSplitsBack | clients/macos/src/probe_matrix.rs:699-753 | Any mix of three- and four-byte start codes, any zero padding and any trailing zeros split back into the same units. |
| Framing.CodedSplitsBack | hosts/capenc/src/annexb.rs:18-41 | What the encoder writes splits back into its units. |
| Framing.SplitIsFramable | clients/macos/src/probe_matrix.rs:717-753 | For any input with a start code every unit split out is nonempty, ends in a nonzero byte and holds no mark (sections 7.4.1 and B.1 of ITU-T H.264). |
| Framing.ReadUndoesFramed | hosts/capenc/src/annexb.rs:18-41 | Reading AVCC undoes writing it for nonempty units below 2^32 bytes. |
| Framing.UnitsNeverMerge | clients/macos/src/probe_matrix.rs:735-753 | Whatever the units hold, splitting their Annex-B form never joins two of them into a unit of 2^32 bytes or more. |
| Framing.RoundTripIff | clients/macos/src/probe_matrix.rs:735-766 | Units survive AVCC, Annex-B and splitting exactly if each can be framed and is shorter than 2^32 bytes. |
| Framing.LongUnitIsLost | clients/macos/src/probe_matrix.rs:758-766 | A unit of 2^32 bytes that could be framed does not survive. |
| Framing.SplitReframeSplit | clients/macos/src/probe_matrix.rs:699-766 | For every input with a start code, splitting, coding and splitting again changes nothing, and AVCC gives the units back exactly if none has 2^32 bytes or more. |
| Framing.ReadStopsAt | hosts/capenc/src/annexb.rs:18-41 | Reading what was written gives the units that are not empty and then stops as what follows does. |
| Framing.TruncatedTails | hosts/capenc/src/annexb.rs:19-28 | One to three bytes are an error in the middle of a length; a length that promises more than there is, is the other error. |
| AccessUnits.H264Kinds | clients/macos/src/probe_matrix.rs:674-682 | For every header byte the kind is that of its type in Table 7-1 of ITU-T H.264, whatever its other bits. |
| AccessUnits.H265Kinds | clients/macos/src/probe_matrix.rs:683-695 | For every header byte the kind is that of its type in Table 7-1 of ITU-T H.265; random access pictures are the keyframes. |
| AccessUnits.GroupAccessUnits | clients/macos/src/probe_matrix.rs:819-844 | The units partition a prefix of the stream; each has exactly one picture, in last place, and its keyframe flag; the leftover has none. |
| AccessUnits.PartitionIsUnique | clients/macos/src/probe_matrix.rs:819-844 | There is only one such partition of a stream. |
| AccessUnits.PicturesOfPartition | clients/macos/src/probe_matrix.rs:819-844 | The units' pictures are the stream's pictures, once each and in order. |
| AccessUnits.LatestParameterSets | clients/macos/src/probe_matrix.rs:790-802 | Each parameter set is the last of its kind in the stream, and absent exactly if there is none. |
| AccessUnits.CompleteIff | clients/macos/src/probe_matrix.rs:777-784 | The latest sets are complete exactly if the stream holds each kind its codec needs. |
| AccessUnits.AccessUnitSampleBytes | clients/macos/src/probe_matrix.rs:849-875 | The sample is the framing of the parameter sets, for a keyframe only, and the unit's pictures. |
| AccessUnits.SampleOfUnit | clients/macos/src/probe_matrix.rs:849-875 | De-framing the sample of any well-formed unit gives the required sets, for a keyframe only, and its one picture. |
| AccessUnits.SamplesCarryTheStream | clients/macos/src/probe_matrix.rs:674-875 | De-framing the k-th sample gives the k-th picture of the stream, behind each required parameter set exactly once if it is a keyframe, and nothing else. |
| Calendar.NextDayCounts | clients/macos/src/probe_matrix.rs:915-930 | The independent day count, a sum of year and month lengths, grows by one from each date to the next, across months, leap days and years. |
| Calendar.EraIsFloor | clients/macos/src/probe_matrix.rs:915-930 | The truncating division with its adjustment by 146096 is floor division. |
| Calendar.YearOfEraIs | clients/macos/src/probe_matrix.rs:915-930 | The year formula is right on every day of the 400-year era. |
| Calendar.CivilFromDaysInverts | clients/macos/src/probe_matrix.rs:915-930 | For every day number that does not overflow 64 bits the result is a valid date, and its day count is that number. |
| Calendar.DaysFromCivilInverts | clients/macos/src/probe_matrix.rs:915-930 | Every date within that range comes back from its day count. |
| Calendar.DayNumbersAreDistinct | clients/macos/src/probe_matrix.rs:915-930 | No two dates have the same day count. |
| Calendar.CivilFromDaysFollowsCalendar | clients/macos/src/probe_matrix.rs:915-930 | The day after is the next calendar day. |
| Calendar.DayZeroIsTheEpoch | clients/macos/src/probe_matrix.rs:915-930 | Day zero is 1 January 1970. |
| UsbHelper.TakeIsInverseOfWritten | clients/macos/src/usb_helper_client.rs:147-198 | A frame is taken from a buffer exactly if the buffer begins with what `write_frame` writes for it, and the rest is what follows. |
| UsbHelper.ProperPrefixNeedsMore | clients/macos/src/usb_helper_client.rs:175-198 | Every proper prefix of a written frame asks for more. |
| UsbHelper.LaterBytesDoNotMatter | clients/macos/src/usb_helper_client.rs:175-198 | A frame or a framing error, once visible, does not depend on what arrives later. |
| UsbHelper.FramesOfWire | clients/macos/src/usb_helper_client.rs:147-198 | Any written list of messages, whatever the tags, with any partial frame behind it, reads back as exactly that list. |
| UsbHelper.CompletionsOfWire | clients/macos/src/usb_helper_client.rs:121-139 | The completions of any written list of messages, with any partial frame behind it, are exactly its COMPLETE payloads up to the first ERROR. |
| UsbHelper.HelperClient.TakeFrame | clients/macos/src/usb_helper_client.rs:175-198 | Drains exactly the first frame, or leaves the buffer untouched. |
| UsbHelper.HelperClient.Fill | clients/macos/src/usb_helper_client.rs:200-212 | Appends all bytes of the next read, in order; the end of the stream and a failed read leave the buffer alone. |
| UsbHelper.ChunksDoNotMatter | clients/macos/src/usb_helper_client.rs:121-139 | However a stream is cut into reads, what the first of them decide is what the whole stream decides, and if they decide nothing the whole means what is left of them and the rest. |
| UsbHelper.BadLengthIsRefused | clients/macos/src/usb_helper_client.rs:175-190 | A frame is refused exactly if its length is zero or beyond the bound, as soon as the length has arrived, and asked more of exactly if it is within and its body is short. |
| UsbHelper.HelperClient.NextCompletion | clients/macos/src/usb_helper_client.rs:121-139 | Reads no more than it takes for the bytes received to decide, and returns what they decide; otherwise it ends with the failed read or the end of the stream that it meets, or is dropped at exactly its last await, with the buffer as the undecided bytes leave it. |
| UsbHelper.HelperClient.PollAll | clients/macos/src/usb_helper_client.rs:121-139 | However often it is polled and dropped, what has been returned and what is still to come are the completions of the stream; with no failed read, enough awaits and one poll more than completions, all are returned. |
| UsbHelper.HelperClient.ReadFrame | clients/macos/src/usb_helper_client.rs:214-224 | Reads no more than the first frame takes and returns it, or the error or end of stream that it meets. |
| UsbHello.DecodeHello | clients/macos/src/usb_helper_client.rs:231-270 | The loop accepts exactly a trailer of the announced number of descriptors within bounds and nothing behind it. |
| UsbHello.HelloRoundTrip | clients/macos/usb-helper/src/frame.rs:107-133 | Decoding what the helper encodes gives it back exactly if it is within the Deck's bounds, and is refused otherwise. |
| UsbHello.DecodedIsEncoded | clients/macos/src/usb_helper_client.rs:231-270 | Nothing else decodes: an accepted payload is the encoding of what was understood, or an older helper's bare identity. |
| UsbHandshake.FitsIffAdmitted | clients/macos/usb-helper/src/frame.rs:135-152 | The helper's length test is exactly the frame's bound on what it encodes. |
| UsbHandshake.ClaimedAlwaysFits | clients/macos/usb-helper/src/frame.rs:154-162 | Every handshake within the claimed descriptor bound and interface count fits the frame. |
| UsbHandshake.Connect | clients/macos/src/usb_helper_client.rs:44-66 | For every split into reads, connecting yields what the unread bytes as a whole stand for, and leaves what follows the handshake unread. |
| UsbHandshake.HandshakeArrivesIff | clients/macos/src/usb_helper_client.rs:44-66 | A handshake reaches the Deck as it was meant exactly if the helper can encode it, it is within the Deck's bounds and it fits the frame. |
| UsbHandshake.OtherFramesAreRefused | clients/macos/src/usb_helper_client.rs:52-63 | Any other first frame is an error that says what it was. |
| UsbHandshake.AcceptableMayNotFit | clients/macos/src/usb_helper_client.rs:231-270 | Five full descriptors are acceptable and can never be sent. |
| CaptureQueues.EveryRun | clients/macos/src/microphone.rs:75-162 | After every run, captured = received + evicted + discarded + queued, the wrapping counters with what was read out of them and 2^64 for each wrap count the accepted and the evicted frames, the queue is the newest at most two accepted frames in order, and the received ones are a subsequence. |
| CaptureQueues.AcceptedArePushed | clients/macos/src/microphone.rs:75-94 | The accepted frames are a prefix of the pushed ones, all of them until a terminal result. |
| CaptureQueues.LogIsTrue | clients/macos/src/microphone.rs:75-140 | Over every run the frames the receiver got are those the log calls received, and the evicted ones are the pushes that found an open queue full, whatever else discards frames. |
| CaptureQueues.DeliveriesFollowPushes | clients/macos/src/microphone.rs:75-140 | Over every run the receiver gets pushed frames, in the order they were pushed, none twice. |
| CaptureQueues.RecvTakesOldest | clients/macos/src/microphone.rs:128-136 | A call takes the oldest queued frame, waits exactly if there is none and capture goes on, and else reports the result. |
| CaptureQueues.TerminalIsWriteOnce | clients/macos/src/microphone.rs:96-112 | A terminal result never changes, and no frame is accepted after it. |
| CaptureQueues.NothingAfterAnError | clients/macos/src/microphone.rs:96-140 | After an error, whatever happens, the receiver gets the terminal result and no frame. |
| CaptureQueues.CleanFinishDrains | clients/macos/src/microphone.rs:96-140 | After a clean finish the queued frames are delivered in order, then the end. |
| CaptureQueues.CaptureQueue.IsConserved | clients/macos/src/microphone.rs:75-162 | Every valid queue object satisfies what holds after every run. |
| CaptureQueues.CaptureQueue.PushDropOldest | clients/macos/src/microphone.rs:75-94 | Accepts a frame, evicting the oldest of two and counting it; ignores it after a terminal result; one more step of the history. |
| CaptureQueues.CaptureQueue.FinishCapture | clients/macos/src/microphone.rs:96-112 | Records the first result only; an error discards the queue. |
| CaptureQueues.CaptureQueue.TryRecv | clients/macos/src/microphone.rs:120-140 | One pass of `recv`: the oldest frame, else the terminal result, else a wait; what it answers is what the log records. |
| CaptureQueues.CaptureQueue.SwapCaptured | clients/macos/src/microphone.rs:142-147 | Reads and resets the first counter, as one step of its own. |
| CaptureQueues.CaptureQueue.SwapDropped | clients/macos/src/microphone.rs:142-147 | Reads and resets the second counter, as one step of its own; a run may do anything in between. |
| CaptureQueues.CaptureQueue.TakeCaptureCounters | clients/macos/src/microphone.rs:142-147 | The two in sequence, with any operations of other threads between them. |
| CaptureQueues.CaptureQueue.DropReceiver | clients/macos/src/microphone.rs:150-162 | Discards what is queued. |
| RecvWakeups.StepKeepsHeard | clients/macos/src/microphone.rs:75-140 | Every step of the capture thread, the notifier and the receiver keeps: a receiver that found nothing will hear of what came since. |
| RecvWakeups.NoWakeupIsLost | clients/macos/src/microphone.rs:120-140 | In every schedule a receiver waiting although there is something to return has a notify still to come, and whichever comes next wakes it. |
| RecvWakeups.RecvReturns | clients/macos/src/microphone.rs:120-140 | Once there is something to return, owed notifies and the receiver's own steps bring `recv` to return, within a bound. |
| RecvWakeups.ReturnsOnlyWithAnswer | clients/macos/src/microphone.rs:120-140 | `recv` leaves only through a pass that finds something, and that pass takes what it returns; dropping it takes nothing. |
| Normalizer.SequenceClosedForm | clients/macos/src/microphone.rs:293-328 | Frame k (from 0) has sequence k mod (2^32 - 1) + 1, never 0, and timestamp 20 k mod 2^32. |
| Normalizer.ExactCounts | clients/macos/src/microphone.rs:293-328 | After n uncancelled pushes exactly floor(48000 n / rate) samples are out, and the phase is 48000 n mod rate. |
| Normalizer.HeldAt | clients/macos/src/microphone.rs:293-328 | Output sample k repeats the scaled input sample in whose interval it falls. |
| Normalizer.ScaleIsNearest | clients/macos/src/microphone.rs:306-307 | A sample is scaled to the nearest integer, ties away from zero, symmetrically, and to full scale beyond the ends. |
| Normalizer.CutOneMore | clients/macos/src/microphone.rs:300-326 | One more sample either lengthens the partial frame or completes the next one, so frame count and partial length are quotient and remainder by the frame size. |
| Normalizer.CaptureNormalizer.constructor | clients/macos/src/microphone.rs:282-291 | A fresh normalizer is exact. |
| Normalizer.CaptureNormalizer.Push | clients/macos/src/microphone.rs:293-328 | Uncancelled, keeps the emitted frames and the partial frame exactly the resampled input, cut; the index into the frame is in bounds on every path, given that a fired cancellation stays fired. |
| Normalizer.CaptureNormalizer.Clear | clients/macos/src/microphone.rs:331-336 | Starts an empty signal and keeps sequence and timestamp. |
| ProbeArguments.ChildReadsParent | hosts/capenc/src/admission_probe.rs:48-116 | For every request the parent can express, the child reads back its geometry, window, warm-up and the canonical frames, or refuses exactly the out-of-bounds ones. |
| ProbeArguments.RequestRoundTripIff | hosts/capenc/src/admission_probe.rs:274-313 | A request survives the trip through the arguments exactly if it is in bounds, has one sparse ratio, numbers its frames from 0 and has motion frames fully dirty. |
| ProbeArguments.RequiredValueIff | hosts/capenc/src/admission_probe.rs:123-134 | A value is found exactly if one argument, and only one, has the prefix. |
| ProbeArguments.AcceptedArguments | hosts/capenc/src/admission_probe.rs:48-116 | The child runs a probe only if asked by name, within its bounds and from arguments each of which is there once; its frames are those its pattern spells, numbered from 0. |
| ProbeTraces.WarmUp | hosts/capenc/src/admission_probe.rs:188-205 | Asks for the warm-up frames in order, the first one a keyframe, up to the first failed encode. |
| ProbeTraces.RunProbeLoop | hosts/capenc/src/admission_probe.rs:188-257 | Asks the encoder for exactly the warm-up and sample frames, forcing only the very first to a keyframe; succeeds exactly if all encodes do, the schedule fits and the writer takes every line and flushes, and then prints the report of the samples measured. |
| ProbeTraces.InputsAre | hosts/capenc/src/admission_probe.rs:197-230 | Warm-up pictures are full motion and fully dirty, sample pictures the request's, and only the very first is forced. |
| ProbeTraces.SamplesAre | hosts/capenc/src/admission_probe.rs:222-240 | Each sample has its frame's sequence and kind, its own lateness, encode time and delivery. |
| ProbeTraces.OffsetsAreSpread | hosts/capenc/src/admission_probe.rs:208-217 | Schedule offsets are exactly floor(window i / n): from zero, below the window, consecutive ones apart by the quotient or one nanosecond more. |
| ProbeTraces.RequestedScheduleFits | hosts/capenc/src/admission_probe.rs:208-217 | No in-bounds request has a schedule that exceeds 64 bits. |
| ProbeTraces.ParseTrace | hosts/capenc/src/admission_probe.rs:450-487 | The loop reads the report line by line and checks it against the request, with the first error it meets. |
| ProbeTraces.ValueOfIff | hosts/capenc/src/admission_probe.rs:519-530 | A field has a value exactly if one field, and only one, has its name. |
| ProbeTraces.AcceptedReport | hosts/capenc/src/admission_probe.rs:450-487 | Nothing else is accepted: one sample line per frame asked for, each with that frame's sequence and kind, then one completion that counts them, and blank lines. |
| ProbeTraces.FieldsRoundTrip | hosts/capenc/src/admission_probe.rs:501-510 | Any fields of plain names and values print and parse back. |
| ProbeTraces.SampleRoundTrip | hosts/capenc/src/admission_probe.rs:489-539 | A printed sample parses back exactly if its sequence fits 16 bits and its durations fit 64. |
| ProbeTraces.TraceRoundTripIff | hosts/capenc/src/admission_probe.rs:450-539 | A whole report is accepted with identical samples exactly if all durations fit and the samples are those asked for. |
| ProbeTraces.ReportFits | hosts/capenc/src/admission_probe.rs:403-415 | No report of up to 600 samples with durations within 64 bits exceeds the parent's bound of 128 KiB. |
| ProbeTraces.ProtocolRoundTrip | hosts/capenc/src/admission_probe.rs:48-539 | For every request in the domain, whatever the encoder and the clock do within 64 bits, the child recovers the request, its schedule fits, and the parent accepts its report, within its output bound, with the samples measured. |
| Text.ParseDecimal | hosts/capenc/src/admission_probe.rs:532-539 | A printed number parses back exactly if it is within the type's range. |
| Text.SplitUndoesSpaced | hosts/capenc/src/admission_probe.rs:501-510 | Splitting at white space undoes joining words. |
| Text.LinesUndoesUnlines | hosts/capenc/src/admission_probe.rs:450-455 | Splitting into lines undoes printing them. |
| Cpio.ReadOdc | packaging/macos/strip_appledouble.py:115-134 | The loop returns the entries through the trailer, or the first error it meets, for every spelling of a size that `int` takes; a negative size ends it here. |
| CpioLoop.ReaderTerminates | packaging/macos/strip_appledouble.py:115-134 | The loop as written, with Python's slices, ends and gives exactly that for every archive in which it meets no negative size. |
| CpioLoop.ReadTerminatesIff | packaging/macos/strip_appledouble.py:115-134 | On every input, negative sizes included, the loop ends exactly if it visits no position twice. |
| CpioLoop.LoopTerminatesIff | packaging/macos/strip_appledouble.py:115-134 | Any loop that goes on only from positions within n of the start ends exactly if it visits none twice, and exactly if it has ended after 2n + 2 rounds. |
| CpioLoop.ReadsStayNear | packaging/macos/strip_appledouble.py:120-122 | The reading loop goes on only from positions within the archive's length of its start, on either side. |
| CpioLoop.NeverEnds | packaging/macos/strip_appledouble.py:123-132 | A header without a name and with a file size of minus 76, at which the loop stands still. |
| Cpio.StripCpio | packaging/macos/strip_appledouble.py:137-153 | Succeeds exactly if the archive parses and every "._" entry has a companion and droppable content, otherwise with the first refusal; keeps the other entries' bytes, names what it dropped and counts what it kept. |
| Cpio.ArchiveReadsBack | packaging/macos/strip_appledouble.py:115-134 | The bytes of any archive's entries, one after the other, read back as those entries (POSIX.1, pax utility, cpio Interchange Format). |
| CpioWriting.WrittenIsRead | packaging/macos/strip_appledouble.py:120-132 | An entry written field by field, with octal sizes, is read back: its name, its bytes and its body, whatever follows (POSIX.1, pax utility, cpio Interchange Format). |
| CpioWriting.WrittenArchiveIsRead | packaging/macos/strip_appledouble.py:115-134 | So is every archive of such entries that ends in its trailer. |
| CpioWriting.CompanionInDirectory | packaging/macos/strip_appledouble.py:55-56 | A name in a directory is a companion exactly if its last part starts with "._", and accompanies the same name without it. |
| CpioWriting.CompanionAtTop | packaging/macos/strip_appledouble.py:144-146 | The same without a directory. |
| Python.SliceIs | packaging/macos/strip_appledouble.py:120-130 | Slices as the loop relies on them: plain within bounds, from the end for a negative index, cut off beyond, empty where the ends cross. |
| Cpio.StrippedParsesToKept | packaging/macos/strip_appledouble.py:137-153 | The stripped archive parses to exactly the entries that are not companions, byte for byte and in order, through the trailer. |
| Cpio.StrippingIsIdempotent | packaging/macos/strip_appledouble.py:137-153 | Stripping again is allowed, drops nothing and changes no byte. |
| Cpio.DroppedBelongsToKept | packaging/macos/strip_appledouble.py:55-56 | Following companions from any name always ends at an entry that is kept. |
| ShippedPackages.InitialFrontier | scripts/generate-third-party-notices.py:118-132 | The walk starts from exactly the packages a root names; a root that does not resolve adds nothing. |
| ShippedPackages.ShippedPackageIds | scripts/generate-third-party-notices.py:134-147 | The walk terminates and returns exactly the resolved packages reachable from the roots through edges that include a normal or build kind, or name none. |
| ShippedPackages.ShipsIff | scripts/generate-third-party-notices.py:141-145 | An edge is followed exactly if it names no kind, or a normal or a build kind among them. |
| BinaryScan.MarkerIsSeenOrInWindow | scripts/verify_quic_product_binary.py:18-30 | A marker occurs in what has been read exactly if it was there before or lies in the overlapping window, however many chunks it spans. |
| BinaryScan.Scan | scripts/verify_quic_product_binary.py:18-30 | For any markers and any split into nonempty chunks, rejects exactly if some marker occurs in the whole, and names one that does. |
| BinaryScan.Verify | scripts/verify_quic_product_binary.py:10-30 | The same for the three markers of the tool. |

## Left out

- Conversion pool: each critical section is one atomic step, `run` is called by one thread at a time, and thread creation failures in `new` are not modelled.
- Conversion pool: memory ordering and the erased lifetime of the closure are represented only by who holds which task when.
- ConversionPool.EveryRunIsExact: a single-task `run` that panics unwinds through the caller, as in the source; it is recorded as such and not as an error result.
- Reconnect controller: zeroization and debug redaction; a cleared secret is an empty string. `fresh_holder_nonce` and the system clock are not modelled.
- Change-impact gate: loading TOML and JSON, git, regex scanning and `classify_changes` are not modelled; snapshots, changed crates and changed files are data. Reasons, review items and report text are not modelled.
- Change-impact gate: evidence records are well-formed, as the loader makes them; unmatched acknowledgements, a base definition whose command cannot be built and a catalogue that names no registry validation are not modelled.
- Bitstream: `parse_avc_decoder_config` and `prepend_parameter_sets` would add easy members; AV1 parsing and the native decoder and encoder back ends are not modelled.
- Calendar: `format_utc_timestamp` only prints the date this model computes.
- USB helper: sockets are a list of reads; submitting and cancelling are not modelled.
- Normalizer.CaptureNormalizer.Push: samples are real numbers, so 32-bit rounding and not-a-number inputs are outside; the frame size of 960 samples is the protocol's.
- Capture queue: the two counter increments of one push are one step; Tokio's notifier is modelled by its documented contract.
- Admission probe: `usize` is 64 bits wide; real time, sleeping and process supervision are not modelled, and output that is not UTF-8 is outside.
- Cpio.ReadOdc: a negative size is an error of the model; what the loop does then is `CpioLoop`, and what the tool would make of entries read that way, and names that are not UTF-8, are not modelled.
- Cpio.StripCpio: refuses archives with a negative size, and whether content is droppable is a predicate given by the caller; gzip, Bom and PackageInfo are not modelled.
- Shipped packages: package identifiers are distinct, as Cargo's are.
- Clipboard, frame policy, configuration migration, credentials and platform checks are short branches that would only add easy members.
