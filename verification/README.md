# Verified core of the in3-c client

A Dafny model of the parts of the in3 client in which a mistake is easy to make and hard to see, with proofs of what
they are for. Verify with `dafny verify dfyconfig.toml`.

* **Request execution** (`ExecModel`, `ExecTrace`, `ExecHandling`, `ExecMachine`). A request context, the chain of contexts it requires,
  the nodes picked for it and their responses. `in3_ctx_execute` is one resumable step; `find_valid_result` is entered
  again after every WAITING; `in3_send_ctx` drives steps to the end. Verifier, node picker, pre-handler, transport and
  signer are environment methods that may give any answer; the first three may also push one fresh required context and
  answer WAITING. `Machine.Valid` is the invariant of every reachable state: attempts are bounded, giving up leaves an
  error, calls to the transport are bounded, and an accepted response of a node is backed by a successful verifier call
  for every request in it, in the same attempt, with all nodes before it rejected.
* **USN booking scheduler** (`UsnBookings`, `UsnSchedule`, `UsnSettle`, `UsnDispatch`, `UsnLogs`,
  `UsnUpdate`, `UsnRuns`, `UsnApi`). Devices with booking lists and a current booking, the loop that picks the earliest
  START or STOP event until none is due, and whole runs of registrations and updates.
* **ABI codec** (`Bytes`, `TwosComplement`, `AbiLayout`, `AbiTypes`, `AbiExact`, `AbiEncode`, `AbiDecode`,
  `AbiSignature`). The encoder that writes in place into a growing buffer refines the section "Formal Specification of the Encoding" of the Solidity
  Contract ABI Specification; the pointer-following decoder undoes it; the signature parser undoes printing.
* **Node list and white list cache** (`CacheFormat`, `CacheStore`, `CacheRoundTrip`). Builder, reader and both round trips.
* **Block layout** (`BlockLayout`, `BlockCopy`). The sizing and the copying pass of `eth_getBlock`.
* **ENS name hashing** (`Ens`) and **type splitting** (`SplitTypes`).

Code that changes state is modelled by classes and methods with loops, each proved against a specification function;
the lemmas about those functions carry the claims. Some claims one might expect are false of the code. They are given
with the exact condition under which they hold, and with a concrete input for which they do not:

* Integers given as decimal strings are encoded as their number: `AbiExact.IntStringExact`, `FiveIsWrong`,
  `MinusTwo64IsWrong`, and for the other number types `OtherStringsWrong`.
* The length in front of bytes and strings is their length: `AbiExact.LengthFieldExact`, `ShortHexIsWrong`.
* The current booking of a device is sound in every run: `UsnRuns.RunInOrderIff`, `UsnRuns.StaleIndexStays`; for a single
  check `UsnSettle.SettlePutsInOrder`, for a single fetch `UsnUpdate.FetchKeepsAnchoredIff`.
* A request that was accepted, or that waits, can be executed again: `ExecMachine.Machine.ExecuteAgain`,
  `SpoiledByFirstNode`, and `SpoiledRequired` for a request without an error.
* A request that may fail is ignored when it has run out of attempts: `ExecMachine.Machine.ExecuteRpc`,
  `FailableUnreachable`.
* Splitting undoes joining: `SplitTypes.SplitUndoesJoin`, `EmptyNameIsLost`.

The limits of `UsnDispatch.ChronologicalIff`, `Ens.MeetsEip137Iff`, `CacheRoundTrip.TableRestoredIff`,
`CacheRoundTrip.WhitelistRoundTrip`, `BlockLayout.PassesAgreeOnTx`, `BlockCopy.GetBlock` and `AbiSignature.AtoiOfPrint`
are exact too.

## Model

| member | source | states |
|---|---|---|
| `ExecMachine.Machine.Execute` | ethereumkit/in3-c/c/src/core/client/execute.c:680-775 | One resumable step of a context and, first, of everything it requires: contexts below it are untouched, everything else only moves ahead, and at most one fresh context is added, and only when the answer is WAITING. A blocked chain, one with an error before the first accepted context, is refused with the code of that error and nothing changes; an error without any change means a blocked chain or a failed signature; an accepted answer without an error is given again; a request without a method is a configuration error. The required context is executed first, then the pre-handler is asked, as the log of calls shows. OK means the answer of this context, and of the one it requires, has passed; after OK or WAITING the chain is blocked exactly if, before the first accepted context, one of the responses looked at in this step did not parse; WAITING has a cause: the environment has to wait, or a signer has not answered, or a transport has not answered a request that has nodes to send to; any other result leaves an error or a failed signature somewhere in the chain. Terminates by chain length, then attempts left |
| `ExecMachine.Machine.ExecuteAgain` | ethereumkit/in3-c/c/src/core/client/execute.c:680-693 | Executing once more after any step: refused, without a change, if the chain is blocked; if it is not, the answer is OK or WAITING, or the chain changes, or a signature has failed. After OK or WAITING it is blocked exactly if a response looked at, here or in a required context before the first accepted one, did not parse; after OK for a request with nodes, the second answer is OK exactly if none of its own responses looked at failed to parse |
| `ExecMachine.Machine.SpoiledByFirstNode` | ethereumkit/in3-c/c/src/core/client/execute.c:286-311 | Two nodes, the first sends no JSON, the second a result: unless the verifier refuses it the request is accepted or waits, with an error, and every further execution is refused without a change |
| `ExecMachine.Machine.SpoiledRequired` | ethereumkit/in3-c/c/src/core/client/execute.c:691-693 | The same request, required by another that has no error: once the required one has been judged, executing the other is refused for good as well, although it has no error itself |
| `ExecMachine.Machine.TryOnce` | ethereumkit/in3-c/c/src/core/client/execute.c:696-758 | One attempt: OK or WAITING as for the whole step, an error that is set, or another attempt, counted and with everything of this one cleared; on the last attempt with a response the code depends only on whether a response did not parse and the request may fail |
| `ExecMachine.Machine.ExecuteRpc` | ethereumkit/in3-c/c/src/core/client/execute.c:696-761 | The request case once its required contexts are done, including the retry by recursion; on the last attempt with a response, giving up is ignorable if and only if the request may fail and one of its responses did not parse, and otherwise a limit error unless one did not parse |
| `ExecMachine.Machine.FindValidResult` | ethereumkit/in3-c/c/src/core/client/execute.c:361-445 | Accepts the first node whose answers all pass: all nodes before it were rejected, each for a reason (transport error, nothing received, not the right number of answers, a missing result while a retry is left, or a refused answer), each measured time has been counted once, later nodes are untouched; EINVAL only when every node is rejected; in the last attempt a response that parses is rejected only if the verifier refused one of its answers, and while an attempt is left no node with a missing result is accepted; a response that no node was asked for is judged in the same way; nodes rejected before stay as they are; the error of the context is set exactly if a response looked at so far did not parse, also when a later one is accepted; the raw responses stay, so a re-entry after WAITING judges the same data and never revives a rejected node |
| `ExecMachine.Machine.MissingResult` | ethereumkit/in3-c/c/src/core/client/execute.c:407-428 | One node that answers with an error instead of a result: while an attempt is left it is rejected; in the last attempt it is accepted unless the verifier refuses it |
| `ExecMachine.Machine.HandleNode` | ethereumkit/in3-c/c/src/core/client/execute.c:370-435 | One node: its time is counted once, its response is judged, nothing happens to the other nodes, a node still in play afterwards has every answer verified in this attempt, and the context's error is set exactly if it was or this response does not parse |
| `ExecMachine.Machine.CheckResponse` | ethereumkit/in3-c/c/src/core/client/execute.c:378-432 | Parsing one response and verifying its answers in order; the first missing or refused answer rejects the node and stops, a missing one only while an attempt is left, and then no answer passes without a result; a response that does not parse rejects the node and sets the error of the whole context, and nothing else sets it |
| `ExecMachine.Machine.GiveUpOrRetry` | ethereumkit/in3-c/c/src/core/client/execute.c:739-760 | The attempt is counted exactly once and its nodes and responses are cleared; another one follows only while attempts are left, with the error cleared; giving up leaves an error, with the limit code if there was none before, else the ignorable code if the request may fail; nothing else changes |
| `ExecMachine.Machine.FailableUnreachable` | ethereumkit/in3-c/c/src/core/client/execute.c:753-759 | A request that may fail, whose nodes could all not be reached on the last attempt, ends with the limit code, which the requiring context does not ignore |
| `ExecMachine.Machine.Prepare` | ethereumkit/in3-c/c/src/core/client/execute.c:699-727 | Up to a response: the calls made, in order, with their answers. Nothing is asked if there is a response; else the pre-handler; then, if it did not answer and there are no nodes, nodes are picked and every entry is configured, up to the first failure, whose code is the error and the answer. A context that waits without the environment waiting has nodes |
| `ExecMachine.Machine.SetError` | ethereumkit/in3-c/c/src/core/client/context.c:96-121 | Sets error and state, except that WAITING is no error and changes nothing |
| `ExecMachine.Machine.Transport` | ethereumkit/in3-c/c/src/core/client/execute.c:460-537 | A request puts one response per node (one without nodes) and perhaps new times into the context and counts one call; a failing payload leaves an error instead |
| `ExecMachine.Machine.Supply` | ethereumkit/in3-c/c/src/core/client/execute.c:589-627 | Without a transport or signer the context fails as misconfigured and nothing is called. Else the transport is called exactly if a payload could be made, the signer exactly if there is something to sign, and the failure of either is the answer |
| `ExecMachine.Machine.SendOne` | ethereumkit/in3-c/c/src/core/client/execute.c:576-587 | One required context is sent and the context executed again: a failure that cannot be ignored ends the call with its code, set on the context; after one that can be, the required context is gone and the execution runs without it |
| `ExecMachine.Machine.NoSigner` | ethereumkit/in3-c/c/src/core/client/execute.c:577-583 | A request requires a signature and no signer is configured: both fail with the configuration error, and nothing is sent |
| `ExecMachine.Machine.SendCtx` | ethereumkit/in3-c/c/src/core/client/execute.c:562-631 | The call is a legal sequence of executions, answers of required contexts and calls of transport or signer, and ends as the last of them demands: an answer of a required context other than OK and the ignorable code is the last event, and is the answer and the error of the context; after any other the context is executed again, after an ignorable one alone; the transport is called only when all required contexts have succeeded, and not for a request without nodes unless the environment waited or a required signature is empty; a context leaves the chain only after an ignorable failure; a chain that waits for a signer that is not there fails throughout with the configuration error. The driver never answers WAITING; OK means the context is finished and its answer verified; any other result leaves an error in the chain; one activation makes at most 10 transport or signer calls for its own context; no transport or signer is called before the required contexts have succeeded; contexts below are untouched; a blocked chain is left as it is, with the code of its error, and an accepted request without an error is answered at once; without a required context at the start and without new ones no run is cut off, whatever the fuel |
| `ExecTrace.RefusalEnds` | ethereumkit/in3-c/c/src/core/client/execute.c:577-586 | In any such sequence, a required context that fails is the last event and its code the answer; any other answer is followed by another execution, which runs alone exactly if the failure was ignorable |
| `ExecTrace.SuppliedWhenReady` | ethereumkit/in3-c/c/src/core/client/execute.c:589-627 | Transport and signer are called only directly after an execution that waits, leaves no response and has all required contexts done |
| `ExecTrace.TenRounds` | ethereumkit/in3-c/c/src/core/client/execute.c:566-574 | At most ten calls of transport or signer; a context that only waits is given up, with a transport error, exactly after it has waited in eleven rounds |
| `ExecHandling.StuckIsValid` | ethereumkit/in3-c/c/src/core/client/execute.c:577-586 | A chain of three that keeps the invariant, in which a signature waits behind an accepted request that requires a failed one: there every run of the driver is cut off, whatever the fuel, although nobody asks for another context |
| `ExecModel.CallsBounded` | ethereumkit/in3-c/c/src/core/client/execute.c:562-631 | Over any run, however often it is resumed, one context causes at most max(1, max_attempts) transport or signer calls |
| `ExecModel.StateMeans` | ethereumkit/in3-c/c/src/core/client/execute.c:665-674 | The recursive state is an error exactly if some context of the chain has one, success exactly if none has and all are answered, and waiting for a required context exactly if none has and one behind the first is not answered |
| `ExecModel.SameThenEvolved` | ethereumkit/in3-c/c/src/core/client/execute.c:691-693 | Progress composes: what a step of the required chain did and what the context itself did add up to one legal step |
| `ExecModel.LaterTwice` | ethereumkit/in3-c/c/src/core/client/execute.c:439-442 | Progress of a context is transitive: rejected nodes stay rejected, the sum of counted and uncounted time is constant within an attempt, attempts never decrease, errors and accepted answers stay |
| `ExecHandling.AcceptedInv` | ethereumkit/in3-c/c/src/core/client/execute.c:437-439 | A judged, unrejected node behind rejected ones makes the context satisfy the invariant: its accepted response is backed by verifier calls of this attempt |
| `UsnApi.Config.CheckActions` | ethereumkit/in3-c/c/src/api/usn/usn_api.c:526-538 | The event loop settles every device, hands exactly the dispatched events to the handler in order, returns the time of the next event, which is not before now, and terminates by twice the bookings plus the idle devices |
| `UsnApi.Config.UpdateState` | ethereumkit/in3-c/c/src/api/usn/usn_api.c:540-552 | The delay neither underflows nor sleeps past the next event, and equals the time to it unless the wait is shorter; afterwards nothing is due; the whole new state is the step of the run model, so a sound configuration, a new one included, ends with every device in order, and a later one exactly if the update was harmless |
| `UsnApi.Config.UpdateBookings` | ethereumkit/in3-c/c/src/api/usn/usn_api.c:369-467 | It succeeds exactly if the block is known and what has to be read can be read. The first time each device gets the answered states that carry a start, in order; later each device gets the logs that name it, one after the other; nothing changes for an unchanged block or a failed later update; the last block moves only on success, and no running index moves |
| `UsnUpdate.UpdatedMeans` | ethereumkit/in3-c/c/src/api/usn/usn_api.c:369-467 | The same, for the update as a function of the answers of the chain |
| `UsnUpdate.LogArrives` | ethereumkit/in3-c/c/src/api/usn/usn_api.c:447-458 | The last rent or return log of a batch for a start on a known device is in the list of that device after the update, with its start and end |
| `UsnUpdate.FetchKeepsAnchoredIff` | ethereumkit/in3-c/c/src/api/usn/usn_api.c:381-414 | After the initial fetch, also one that fails half-way, every index is sound if and only if each device read was idle or its index names a booking of the new list that has started, and each device not read was sound |
| `UsnUpdate.UpdateInOrderIff` | ethereumkit/in3-c/c/src/api/usn/usn_api.c:540-552 | After any update everything is in order if and only if before its second check each device was sound or had an expired booking |
| `UsnRuns.UpdateKeepsOrderIff` | ethereumkit/in3-c/c/src/api/usn/usn_api.c:540-552 | An update of sound devices, successful or not, ends with every device in order if and only if it is no initial fetch or each device is sound, or has an expired booking, after the fetch |
| `UsnRuns.UnusedFetchIsHarmless` | ethereumkit/in3-c/c/src/api/usn/usn_api.c:381-414 | That is so for every fetch of unused devices, also for one that fails half-way |
| `UsnRuns.RunInOrderIff` | ethereumkit/in3-c/c/src/api/usn/usn_api.c:306-552 | In any run of registrations, clock changes and updates of sound devices, every update ends with all devices in order if and only if every initial fetch in it is harmless; and then every index stays sound |
| `UsnRuns.RunInOrder` | ethereumkit/in3-c/c/src/api/usn/usn_api.c:306-552 | From the start, every run whose initial fetch, when it is made, reads every device, and in which no later block is numbered 0, is such a run |
| `UsnApi.Config.NextEvent` | ethereumkit/in3-c/c/src/api/usn/usn_api.c:484-504 | The scan over devices and bookings finds the first earliest candidate |
| `UsnApi.Device.EventHandled` | ethereumkit/in3-c/c/src/api/usn/usn_api.c:506-524 | It succeeds exactly if a booking starts, or ends, at the time of the event; then the device changes as specified, and otherwise nothing changes |
| `UsnApi.Device.AddBooking` | ethereumkit/in3-c/c/src/api/usn/usn_api.c:345-367 | Appends a new booking or updates the one with the same start, and says which |
| `UsnApi.Config.RegisterDevice` | ethereumkit/in3-c/c/src/api/usn/usn_api.c:306-322 | A device is appended idle and empty; an url without a device part is refused and changes nothing |
| `UsnApi.Config.RemoveOldBookings` | ethereumkit/in3-c/c/src/api/usn/usn_api.c:469-482 | An order-preserving filter that leaves the current index alone |
| `UsnSchedule.NextMeans` | ethereumkit/in3-c/c/src/api/usn/usn_api.c:484-504 | The next event is a STOP of some booking or a START of a startable one, and no such candidate is earlier |
| `UsnSchedule.EarliestIsFirstMinimum` | ethereumkit/in3-c/c/src/api/usn/usn_api.c:484-504 | Ties go to the candidate scanned first |
| `UsnSchedule.DueEvent` | ethereumkit/in3-c/c/src/api/usn/usn_api.c:506-538 | A due START finds its device idle, a due STOP finds its booking, and handling either makes the termination measure smaller |
| `UsnSchedule.HandlerCallsBounded` | ethereumkit/in3-c/c/src/api/usn/usn_api.c:526-538 | The handler is called at most as often as the measure shrinks |
| `UsnSettle.LoopSettles` | ethereumkit/in3-c/c/src/api/usn/usn_api.c:526-538 | Whatever the interleaving of devices, the loop ends in the state in which each device, taken alone, lost its expired bookings and started its first running one |
| `UsnSettle.SettledIsQuiet` | ethereumkit/in3-c/c/src/api/usn/usn_api.c:526-538 | After the loop no event is due |
| `UsnSettle.SettlePutsInOrder` | ethereumkit/in3-c/c/src/api/usn/usn_api.c:484-538 | After a check no booking is over, and a device has a current booking exactly if one is running, with the index at such a booking: this holds if and only if the index was sound before or some booking had expired |
| `UsnSettle.SettleKeepsOrder` | ethereumkit/in3-c/c/src/api/usn/usn_api.c:526-538 | Sound devices stay sound, and are in order, after each check |
| `UsnRuns.StaleIndexStays` | ethereumkit/in3-c/c/src/api/usn/usn_api.c:381-414 | The run that shows the proviso is needed: two new devices, an initial fetch that fails on the second, a check that starts the third booking of the first, and a second fetch of a shorter list leave an index behind that no check repairs while the booking lasts |
| `UsnSettle.SettleIdempotent` | ethereumkit/in3-c/c/src/api/usn/usn_api.c:526-538 | A second check at the same time changes nothing and calls no handler |
| `UsnSettle.AddKeepsAnchored` | ethereumkit/in3-c/c/src/api/usn/usn_api.c:345-367 | Renting and returning at any later time keep the current index sound |
| `UsnSettle.CheckPurgesLikeRemoveOld` | ethereumkit/in3-c/c/src/api/usn/usn_api.c:469-482 | A check removes the same bookings as the explicit purge, except exactly those that end at the all-ones timestamp once that is reached |
| `UsnDispatch.ChronologicalIff` | ethereumkit/in3-c/c/src/api/usn/usn_api.c:484-538 | The handler sees non-decreasing timestamps across all devices if and only if no expired booking of any device ended after a still running booking of the same device began |
| `UsnDispatch.DisjointIsChronological` | ethereumkit/in3-c/c/src/api/usn/usn_api.c:484-538 | In particular for devices whose bookings are disjoint intervals, empty ones included |
| `UsnDispatch.OneStopPerExpiredBooking` | ethereumkit/in3-c/c/src/api/usn/usn_api.c:506-538 | The STOP events of a device are exactly its expired bookings, each once |
| `UsnDispatch.StopsComeInOrder` | ethereumkit/in3-c/c/src/api/usn/usn_api.c:484-538 | No event handed out before a STOP, for any device, is later than it, so the STOPs come in time order even when bookings overlap |
| `UsnDispatch.StartsAreActive` | ethereumkit/in3-c/c/src/api/usn/usn_api.c:506-538 | Every START handed out is for a booking that runs now on a device that was idle or had expired bookings |
| `UsnBookings.ReplayIdempotent` | ethereumkit/in3-c/c/src/api/usn/usn_api.c:345-367 | Applying a batch of rent and return logs twice gives what applying it once gives |
| `UsnBookings.ReplayKeepsKeysDistinct` | ethereumkit/in3-c/c/src/api/usn/usn_api.c:345-367 | No two bookings with the same start arise |
| `UsnBookings.ReplayLastUntilWins` | ethereumkit/in3-c/c/src/api/usn/usn_api.c:345-367 | The last end per start wins |
| `UsnBookings.ReplayLastPropsWin` | ethereumkit/in3-c/c/src/api/usn/usn_api.c:345-367 | The last props per start win, and logs without props leave them |
| `UsnBookings.ReplayNoProps` | ethereumkit/in3-c/c/src/api/usn/usn_api.c:345-367 | A booking opened by logs without props has sixteen zero bytes |
| `UsnBookings.ReplayTouchesLogged` | ethereumkit/in3-c/c/src/api/usn/usn_api.c:345-367 | A booking whose start no log names was there before and is unchanged |
| `UsnBookings.ReplayReachesFirst` | ethereumkit/in3-c/c/src/api/usn/usn_api.c:345-367 | Of several bookings with one start only the first changes, and no second one is added |
| `UsnBookings.ReplayKeepsEarlier` | ethereumkit/in3-c/c/src/api/usn/usn_api.c:345-367 | Bookings keep their place, start, controller and transaction |
| `UsnBookings.ReplayFirstIdentityKept` | ethereumkit/in3-c/c/src/api/usn/usn_api.c:345-367 | A new booking keeps the controller and transaction of its first log |
| `UsnLogs.BatchPerDevice` | ethereumkit/in3-c/c/src/api/usn/usn_api.c:447-458 | A mixed batch acts on each device as the logs of that device alone |
| `UsnLogs.BatchIdempotent` | ethereumkit/in3-c/c/src/api/usn/usn_api.c:447-458 | A whole mixed batch applied twice is the batch applied once |
| `AbiEncode.CallRequest.EncodeTuple` | ethereumkit/in3-c/c/src/api/eth1/abi.c:340-351 | For tokens that the encoder treats as specified (AbiExact.ElemExact says which) the buffer gets exactly the encoding of the Contract ABI Specification appended, every byte stored once, and the result is the end of the heads; a value that is not an array of the right length is refused with an error |
| `AbiEncode.CallRequest.EncodeMember` | ethereumkit/in3-c/c/src/api/eth1/abi.c:349-350 | One member: its head fills the next bytes of the head area, its tail is appended at the old end of the buffer, and its offset word is that position minus the four selector bytes |
| `AbiEncode.CallRequest.Encode` | ethereumkit/in3-c/c/src/api/eth1/abi.c:317-391 | A value in place, or, for a dynamic type with a tail position, an offset word in place and the value appended |
| `AbiEncode.CallRequest.EncodeArray` | ethereumkit/in3-c/c/src/api/eth1/abi.c:328-390 | Elements one after the other, with their number in front if it is not fixed by the type |
| `AbiEncode.CallRequest.EncodeElem` | ethereumkit/in3-c/c/src/api/eth1/abi.c:353-384 | For any token and type: the bytes that AbiTypes.Written describes, in place, each stored once, or an error that leaves the buffer alone |
| `AbiEncode.CallRequest.IntBytes` | ethereumkit/in3-c/c/src/api/eth1/abi.c:353-373 | A string that starts with '-' yields the big-endian bytes of 2^256 minus what strtoull reads behind it, any other string its characters, an integer or byte token its bytes, anything else nothing |
| `AbiTypes.StrtoullMeans` | ethereumkit/in3-c/c/src/api/eth1/abi.c:357 | Behind any white space and at most one sign, the digits up to the first other character: the number, its negation modulo 2^64 behind a minus, or the largest number if it does not fit |
| `AbiExact.SpecificationExample` | ethereumkit/in3-c/c/src/api/eth1/abi.c:317-391 | The call sam("dave", true, [1, 2, 3]) has the encoding printed in the Contract ABI Specification, word for word |
| `AbiEncode.StrToUll` | ethereumkit/in3-c/c/src/api/eth1/abi.c:357 | strtoull: white space, a sign, digits, the largest 64-bit number on overflow |
| `AbiExact.ElemExact` | ethereumkit/in3-c/c/src/api/eth1/abi.c:353-384 | For every token that has a value of the type, the bytes written are those of the specification, with numbers taken modulo 2^256, if and only if FitsElem holds |
| `AbiExact.IntStringExact` | ethereumkit/in3-c/c/src/api/eth1/abi.c:354-363 | A decimal string for an int is encoded as its number if and only if it starts with '-' and its magnitude is below 2^64, or agrees with 2^64 - 1 modulo 2^256, which no magnitude below 2^256 does otherwise |
| `AbiExact.FiveIsWrong` | ethereumkit/in3-c/c/src/api/eth1/abi.c:361 | The int "5" is encoded as 53, its character code |
| `AbiExact.MinusTwo64IsWrong` | ethereumkit/in3-c/c/src/api/eth1/abi.c:357-361 | The int "-18446744073709551616" is encoded as -(2^64 - 1) |
| `AbiExact.OtherStringsWrong` | ethereumkit/in3-c/c/src/api/eth1/abi.c:375-379 | No decimal string is encoded as its number for uint, bool or address |
| `AbiExact.ShortHexIsWrong` | ethereumkit/in3-c/c/src/api/eth1/abi.c:380-384 | The bytes 0x1234, an integer token, get the length 4660 |
| `AbiEncode.CallRequest.WriteRight` | ethereumkit/in3-c/c/src/api/eth1/abi.c:276-287 | Right-aligned, zero-filled words at the position, extending the buffer if needed |
| `AbiEncode.CallRequest.WriteLeft` | ethereumkit/in3-c/c/src/api/eth1/abi.c:288-296 | Left-aligned, zero-filled words at the position, extending the buffer if needed |
| `AbiLayout.LayoutTailAt` | ethereumkit/in3-c/c/src/api/eth1/abi.c:322-326 | In any encoded tuple the word in a dynamic head is the position at which the value lies |
| `AbiLayout.LayoutHeadAt` | ethereumkit/in3-c/c/src/api/eth1/abi.c:340-351 | And every static value lies in its head |
| `AbiTypes.HeadSizesAre` | ethereumkit/in3-c/c/src/api/eth1/abi.c:247-258 | The head sizes computed from the types alone are the sizes of the encoded heads |
| `AbiTypes.TupleSize` | ethereumkit/in3-c/c/src/api/eth1/abi.c:317-391 | The length behind the selector is a multiple of 32 |
| `AbiExact.LengthFieldExact` | ethereumkit/in3-c/c/src/api/eth1/abi.c:380-384 | The bytes written for an unsized value are those of the specification if and only if the token is neither an integer above 1 nor the boolean false |
| `AbiDecode.VarDesc.GetData` | ethereumkit/in3-c/c/src/api/eth1/abi.c:397-484 | Decoding follows the pointers as specified and restores the array length it switches off on the way |
| `AbiDecode.GetTuple` | ethereumkit/in3-c/c/src/api/eth1/abi.c:425-430 | The members of a tuple in order, with every descriptor unchanged afterwards |
| `AbiDecode.RoundTrip` | ethereumkit/in3-c/c/src/api/eth1/abi.c:397-484 | Decoding the encoding of any well-typed tuple returns its values and stops at the end of the heads |
| `AbiDecode.MemberRoundTrip` | ethereumkit/in3-c/c/src/api/eth1/abi.c:397-484 | The same for a single member at its head |
| `AbiDecode.ElemsRoundTrip` | ethereumkit/in3-c/c/src/api/eth1/abi.c:402-422 | The elements of an array come back one after the other |
| `AbiDecode.NormKeeps` | ethereumkit/in3-c/c/src/api/eth1/abi.c:444-478 | What comes back equals what went in: a number up to leading zeros, a string exactly if it has no NUL, bytes as the bytes they denote, booleans and addresses as they were |
| `AbiDecode.ParseResult` | ethereumkit/in3-c/c/src/api/eth1/abi.c:486-497 | Nothing, the only value, or an array of all values |
| `AbiDecode.ResultRoundTrip` | ethereumkit/in3-c/c/src/api/eth1/abi.c:486-497 | A result encoded by the same rules comes back, a single one without an array around it |
| `AbiSignature.ListRoundTrip` | ethereumkit/in3-c/c/src/api/eth1/abi.c:121-150 | Parsing a printed list of canonical type names yields one tuple token with the count, then the types in order |
| `AbiSignature.ArrayRoundTrip` | ethereumkit/in3-c/c/src/api/eth1/abi.c:132-143 | A list with an array suffix puts the length into the tuple token, or -1 without one |
| `AbiSignature.TupleRefused` | ethereumkit/in3-c/c/src/api/eth1/abi.c:125-131 | A member that is itself a tuple is refused, whatever follows: its brackets are taken as part of a name. This is why inner brackets are removed first |
| `AbiSignature.DefaultSizes` | ethereumkit/in3-c/c/src/api/eth1/abi.c:92-112 | uint and int without a size have 32 bytes; the fixed names have theirs |
| `AbiSignature.AtoiOfSigned` | ethereumkit/in3-c/c/src/api/eth1/abi.c:84-107 | Behind any white space and at most one sign, the digits are read up to the first other character, as an int |
| `AbiSignature.NameRoundTrip` | ethereumkit/in3-c/c/src/api/eth1/abi.c:65-119 | Parsing the printed name of a canonical type returns the type |
| `AbiSignature.Parser.ParseTuple` | ethereumkit/in3-c/c/src/api/eth1/abi.c:121-150 | The loop over characters appends exactly the specified tokens |
| `AbiSignature.Parser.AddToken` | ethereumkit/in3-c/c/src/api/eth1/abi.c:65-119 | A name appends its token and increments the count of the tuple, and an unusable name changes nothing |
| `AbiSignature.AtoiOfPrint` | ethereumkit/in3-c/c/src/api/eth1/abi.c:84-107 | Reading a printed decimal number returns it if and only if it fits in an int |
| `TwosComplement.ComplementInPlace` | ethereumkit/in3-c/c/src/api/eth1/abi.c:298-315 | The loop that flips the bits above the lowest set one, and the byte swap, turn any little-endian 256-bit number into the big-endian bytes of its negation modulo 2^256 |
| `TwosComplement.Negated` | ethereumkit/in3-c/c/src/api/eth1/abi.c:298-315 | The negation of a number is what adds up to 0 or 2^256 with it |
| `TwosComplement.FromUll` | ethereumkit/in3-c/c/src/core/util/bitset.c:167-175 | Setting the bits of a 64-bit number one by one gives its little-endian bytes |
| `TwosComplement.ToggleValue` | ethereumkit/in3-c/c/src/core/util/bitset.c:59-106 | Flipping bit k adds or subtracts 2^k |
| `TwosComplement.LowestSet` | ethereumkit/in3-c/c/src/api/eth1/abi.c:300-304 | The first set bit, with only zeros below it |
| `Bytes.BEOfValue` | ethereumkit/in3-c/c/src/core/util/utils.c:86-101 | Any byte string is the big-endian form, of its length, of the number it denotes |
| `Bytes.TrimValue` | ethereumkit/in3-c/c/src/core/util/bytes.h:108-113 | Dropping leading zero bytes keeps the number and at least one byte |
| `CacheStore.ChainCache.StoreNodelist` | ethereumkit/in3-c/c/src/core/client/cache.c:127-161 | Stores exactly the specified bytes |
| `CacheStore.ChainCache.UpdateNodelist` | ethereumkit/in3-c/c/src/core/client/cache.c:71-125 | No cached value is no error, another version is refused and changes nothing, and otherwise the chain becomes what the bytes say |
| `CacheStore.Builder.WriteHashes` | ethereumkit/in3-c/c/src/core/client/cache.c:152-166 | Only the entries before the first one without a block number are written, behind their number |
| `CacheRoundTrip.NodelistRoundTrip` | ethereumkit/in3-c/c/src/core/client/cache.c:71-174 | Loading what was stored restores contract, last block, all weights and every field of every node but its internal attributes; the hashes in use are laid over the table that is present; the bytes are consumed exactly |
| `CacheRoundTrip.HashesRoundTrip` | ethereumkit/in3-c/c/src/core/client/cache.c:117-166 | The table of hashes after loading what was stored, entry by entry: each entry in use that fits replaces the one that is there, or a blank one in a table allocated for it, the others stay, and without entries in use nothing happens |
| `CacheRoundTrip.NodeAt` | ethereumkit/in3-c/c/src/core/client/cache.c:139-147 | The bytes of each node behind the header, the weights and the nodes before it: capacity, index, deposit and properties as big-endian numbers, the address, and the url with its end |
| `CacheRoundTrip.FreshTable` | ethereumkit/in3-c/c/src/core/client/cache.c:117-121 | Loaded into a chain without a table of the same size, the used hashes come back with blank entries behind them |
| `CacheRoundTrip.TableRestoredIff` | ethereumkit/in3-c/c/src/core/client/cache.c:117-121 | Such a table is restored as it was if and only if it is in use at all and blank behind its first unused entry |
| `CacheRoundTrip.Whitelist.Update` | ethereumkit/in3-c/c/src/core/client/cache.c:176-209 | The same cases as for the node list, with the number of addresses read back |
| `CacheRoundTrip.WhitelistRoundTrip` | ethereumkit/in3-c/c/src/core/client/cache.c:176-233 | A white list comes back if and only if its bytes are whole addresses; otherwise what remains is lost |
| `Ens.EnsHash` | ethereumkit/in3-c/c/src/api/eth1/ens.c:60-72 | The right-to-left loop over the dots computes the recursive namehash of EIP-137, for any 32-byte hash function and every non-empty name |
| `Ens.MeetsEip137Iff` | ethereumkit/in3-c/c/src/api/eth1/ens.c:60-72 | Exactly for the non-empty names, unless the hash happens to map the empty label to zero |
| `Ens.NextToken` | ethereumkit/in3-c/c/src/api/eth1/ens.c:11-16 | The last dot at or before a position |
| `SplitTypes.Split` | ethereumkit/in3-c/wasm/src/in3_util.js:193-214 | The result is the text cut at every top-level comma, less a last type of at most one character |
| `SplitTypes.PiecesMeans` | ethereumkit/in3-c/wasm/src/in3_util.js:193-214 | The pieces join to the text, none holds a top-level comma, and none but the last leaves a bracket open |
| `SplitTypes.SplitUndoesJoin` | ethereumkit/in3-c/wasm/src/in3_util.js:193-214 | Splitting a bracketed, comma-joined list returns the list if and only if it is empty or its last type has more than one character, nested tuple types included |
| `SplitTypes.SplitMeans` | ethereumkit/in3-c/wasm/src/in3_util.js:193-214 | Of a bracketed text the list in the brackets comes back, and of any other text, or any text whose brackets are to stay, the list it is made of, each less a last type of at most one character |
| `SplitTypes.PlainOutputStays` | ethereumkit/in3-c/wasm/src/in3_util.js:193-214 | An output without brackets keeps its first and last character: bool gives one type, uint256,bool gives two |
| `SplitTypes.EmptyNameIsLost` | ethereumkit/in3-c/wasm/src/in3_util.js:193-214 | Of (uint256,) the second, empty name is lost |
| `SplitTypes.JoinUnique` | ethereumkit/in3-c/wasm/src/in3_util.js:193-214 | A list of types without top-level commas and with closed brackets is determined by its text |
| `BlockCopy.GetBlock` | ethereumkit/in3-c/c/src/api/eth1/eth_api.c:148-221 | The copying pass ends exactly at the size that the sizing pass computed if and only if that size fits in 32 bits; otherwise it would leave the allocation |
| `BlockCopy.CopyPass` | ethereumkit/in3-c/c/src/api/eth1/eth_api.c:173-217 | The memory is the concatenation of the padded pieces, and all pointers point at theirs |
| `BlockCopy.ReadBack` | ethereumkit/in3-c/c/src/api/eth1/eth_api.c:130-217 | Behind the pointers a reader finds the extra data, each seal field, and each transaction struct with its data behind it, or each hash |
| `BlockLayout.SizingPass` | ethereumkit/in3-c/c/src/api/eth1/eth_api.c:160-173 | The sum of all rooms, cut down to 32 bits |
| `BlockLayout.SizeIsImage` | ethereumkit/in3-c/c/src/api/eth1/eth_api.c:148-221 | Both passes agree on the size, although they add it up in different orders and round differently |
| `BlockLayout.PassesAgreeOnTx` | ethereumkit/in3-c/c/src/api/eth1/eth_api.c:110-132 | Rounding a transaction struct with its data, or only the data, is the same if and only if the struct size is a multiple of the pointer size |
| `BlockLayout.PiecesDisjoint` | ethereumkit/in3-c/c/src/api/eth1/eth_api.c:148-217 | All pieces lie inside the allocation and do not overlap |
| `BlockLayout.PiecesAligned` | ethereumkit/in3-c/c/src/api/eth1/eth_api.c:148-217 | All pieces start at multiples of the pointer size |
| `BlockLayout.AlignMeans` | ethereumkit/in3-c/c/src/api/eth1/eth_api.c:104-107 | The least multiple of the pointer size that is not smaller |
| `BlockLayout.CopyFixedIsNumber` | ethereumkit/in3-c/c/src/api/eth1/eth_api.c:46-56 | A fixed-size copy is the number the bytes denote, cut down to that size |

## Left out

Request execution
- ExecMachine.Machine.SendCtx: does not claim that the driver ends, because nothing in the source bounds how often a verifier may ask for another context; a run is cut off after `fuel` sub-requests, and every run that ends is complete for some `fuel`. Not even a bound on the number of new contexts would do, as `ExecHandling.StuckIsValid` shows. It does not claim the "first update returns an error" rule of `ctx_handle_failable`, which looks at parameters it has already cleared.
- ExecMachine.Machine.FindValidResult: for a response the client made up itself OK does not mean that the verifier agreed, since there is no node to reject; then the response does not count as accepted. If such a response has no result while an attempt is left, the source dereferences a missing node.
- ExecMachine.Machine.Execute: a verifier answers zero or a negative code, since `in3_ret_t` has no positive member; a new required context waits in its first execution; a pre-handler that answers does so before nodes are picked; node picking yields at least one node; a signer does not answer WAITING.
- The client functions that clear an interim error of the outermost request after OK (`client.c`) are not modelled; the required contexts keep theirs.
- One measured time per node; the sharing of the configuration array between requests and nodes, blacklisting times, automatic list updates, the payload, error texts and memory are not modelled.
- The order of required contexts is a chain; cycles that a caller could build are not.

USN
- UsnRuns.RunInOrderIff: for runs without the explicit purge, which does not reset the index; `UsnSettle.SettlePutsInOrder` says when a check after it still ends in order.
- Waiting for a device message, url parsing beyond the presence of a device part, contract calls and signature checks.
- Timestamps are at most 2^64 - 1; that value is never due, as in the source.

ABI
- AbiDecode.RoundTrip: for flat tuples of uint, bool, address, bytesN, bytes, string and arrays of the static ones. Decoding of int does not advance the offset, arrays of string and bytes are encoded inline but decoded through pointers, and nested tuples are flattened, so there is nothing to prove. The encoding must be shorter than 2^31 bytes, the range of an `int` offset.
- AbiEncode.CallRequest.Encode: for values that fit their types, that is, whose elements are written as specified (see `AbiExact.ElemExact`); the source does not check the result of a member, and sizes must stay below 2^31.
- AbiEncode.StrToUll: 64 bits; on Zephyr the source calls `strtoul` instead.
- AbiSignature.NameRoundTrip: names shorter than the 50 characters of the name buffer; longer ones are undefined in the source.
- AbiDecode.VarDesc.GetData: a read outside the data, also through a negative pointer or length, is None; the source does not check it.

Cache, block, ENS, types
- CacheStore.ChainCache.UpdateNodelist: a read outside the cached bytes is None; the source does not check it. Keys and the storage itself are not modelled; raw structs are written and read on machines of the same byte order, either one.
- BlockCopy.GetBlock: the fields of the block struct and of the seal table are kept beside the memory image; the fields of a transaction struct are one byte string of the struct's size.
- Resolving a name through the registry, `convertTypes`, JSON parsing and RLP decoding, hashing, signing, transports, storage and the command line.
