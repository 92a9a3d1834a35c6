# A model of ddcutil's DDC core

This project models, in Dafny, the parts of ddcutil that decide how it talks to a monitor, and
proves what they promise:

* **Dynamic sleep algorithm 2** (`src/base/dsa2.c`): per-bus tables that learn how long to sleep
  between DDC operations: a ring of recent successes, the step climbed inside a retry loop, the
  adjustment between operations, two ratchets, and a text cache that is written and read back.
  `CircularBuffer`, `StepTable`, `Dsa2` (the table as a class updated in place, proved against
  functions), `Dsa2Entries` (what an operation leaves, from the ring's entries alone),
  `Dsa2Properties` (runs on one table), `Dsa2World` (all tables and settings, every history),
  `Dsa2Lookups` (what a lookup, a reset or a new setting gives), `RetryLoop` (the try loop of
  `src/ddc/ddc_packet_io.c` that drives a table), `Text` and `StatsFile` (printing and parsing),
  `TableStore` (the array of tables saved and restored in place).
* **DDC/CI packets** (`src/base/ddc_packets.c`, `src/ddc/ddc_multi_part_io.c`): request framing and
  the checksum (sections 6.2 and 6.3 of the VESA DDC/CI standard), the four-layer response parser,
  and the loops that read a capabilities string and write a table value in fragments. `DdcPackets`,
  `DdcResponses`, `MultiPart`, `TableWrite`.
* **Display locks** (`src/base/display_lock.c`): any number of threads interleaving lock, unlock and
  bulk release calls, as a transition system with a program counter per thread. `DisplayLock` has
  the steps and the invariant, `DisplayLockSafety` what holds in every interleaving,
  `DisplayLockCalls` what each call works on from its beginning to its return, and
  `DisplayLockDeadlock` when nobody can go on.
* **Display references** (`src/base/displays.c`): the two-pass lookup that recovers from duplicates,
  the backoff lock, the id counter and the table of published references. `DisplayRefs`.
* **Smaller array algorithms**: 256-bit feature lists and their text (`FeatureLists`, `FeatureText`),
  the retry histogram (`RetryHistogram`), the marking of duplicate EDIDs (`EdidXref`).

`CArith` has C's truncating operators, `Options` an optional value, `StatusCodes` the status
codes. Objects that the source updates in place are classes, and their methods are proved to compute
functions about which the lemmas speak.
A failed C assert ends the program; it is modelled as an outcome (`Aborted`, `AssertFailed`) wherever
the code can reach it, and proved unreachable elsewhere.

## Where the code does something else than it says

* `cirb_logical_to_physical_index()` is documented to give -1 for an index that is not there. A
  negative index can give another negative number, or, in a full ring, the position of a value
  (`NegativeIndex` has the exact conditions). No caller passes one.
* A raise by `dsa2_adjust_for_rcnt_successes()` returns the step from before the increment
  (line 813), so `dsa2_record_final()` sets it back: a success that met no null message and few tries
  never raises the step (`EasySuccessNeverRaises`), although the raise is counted (`RaiseIsUndone`,
  at a reachable table `RaiseIsReached`).
* The save and reset loops stop before `I2C_BUS_MAX` although the table has a slot for it: that bus
  is never saved or reset (`RoundTripIsIdentity`).
* The cache reader accepts a negative step (`NegativeStepIsAccepted`). No assert can fail because of
  it (`EveryHistoryIsSafe`), but while the loop step of a bus is negative its multiplier would
  be read from before the array of steps (`NegativeStepReadsOutside`; `RestoreInRangeIff` and
  `HistoryInRangeIff` say exactly which files do this). It also accepts an interval that is not
  positive, which is then never counted down to its end (`ConsultedEveryThird`).
* `dsa2_record_final()` exempts the status "all responses null", but that status is assigned only
  after the call, so the exemption is dead: a read whose responses are all null leaves the next
  operation at the last step (`AllNullOperation`).
* The same status is returned only if some response was not null (`AllNullIsReturnedIff`).
* That all tries were zero is returned only of an operation allowed a single try: an accepted all-zero
  response ends the loop, so two never add up (`ZerosEndAtOnce`, `ReturnedIs`).
* For a null response that may mean "unsupported" the try loop passes 2 less the tries made as the
  tries that remain, which goes below zero: such a loop can fail at every try and leave the next
  operation below the last step (`MixedNullsStayBelow`; `FailedOperationIff` says exactly when).
* Creating a multi-part request shifts the offset by 16 where updating shifts by 8. Reads always
  update and are right (`ReadDeliversIff`); writes only create, so a table value longer than 280
  bytes does not arrive (`ValueArrivesIff`).
* The write request's own assert admits 31 bytes, the assert it then meets only 28
  (`CreateMultiPartWriteRequest`).
* A capabilities string or table value longer than 2046 bytes ends the program at an assert, since
  the accumulator keeps two bytes free (`ReadDeliversIff`).
* `dref_lock()` has a limit of 1000 milliseconds and sleeps for 1550 (`LockDrefDefault`; `LockDref`
  says which limits are overslept).
* The id that stands for no display reference is given after 2^32 references (`DrefTable.NextId`).
* The duplicate recovery leaves matches that share the highest timestamp (`LookUpSucceedsIff`,
  `EqualStampsAreNotRecovered`), finds none if the only match has no timestamp, and dereferences null
  if several match and none has one (`LookUpOutcome`). The last two are guarded against elsewhere:
  every reference is stamped when it is created (`src/base/displays.c:633`).
* A changed length byte can pass the framing layer (`CorruptLengthIsNotDetected`, exactly when by
  `CorruptLengthPassesIff`), or turn into the double byte quirk (`QuirkMakesNullResponse`). The whole
  parser rejects it in every value reply (`ValueLengthIsProtected`) but not in every fragment
  (`FragmentLengthPassesIff`).

## Model

| member | source | states |
|---|---|---|
| CircularBuffer.Buffer.Add | src/base/dsa2.c:189-200 | adding appends to the retained values and drops the oldest when full, whatever the rotation |
| CircularBuffer.UnrolledAfterWrite | src/base/dsa2.c:189-200 | overwriting the slot at the write position is, on the logical sequence, an append that keeps the last `size` |
| CircularBuffer.RetainsTheLatest | src/base/dsa2.c:189-200 | after any history of adds the buffer holds exactly the last `size` of all values added, oldest first |
| CircularBuffer.Buffer.LogicalToPhysical | src/base/dsa2.c:211-224 | logical index i is the slot of the i-th oldest value; past the end it is -1 |
| CircularBuffer.Buffer.GetLogical | src/base/dsa2.c:234-241 | the i-th oldest value, or the "not found" value |
| CircularBuffer.Buffer.GetLatest | src/base/dsa2.c:251-268 | copies exactly the last min(n, ct) values in order, all of them for a negative request, and nothing else |
| CircularBuffer.NegativeIndex | src/base/dsa2.c:202-224 | exactly when a negative logical index gives the documented -1, and exactly when it gives some negative position |
| CircularBuffer.NegativeIndexFound | src/base/dsa2.c:202-224 | a full ring in which index -1 finds a value |
| StepTable.NextRetryStepBounds | src/base/dsa2.c:678-708 | the next step is between the failed one and the last, is the last when one or two tries remain, and otherwise is the even share of the climb with the three-quarters rule |
| StepTable.NextRetryStepMonotone | src/base/dsa2.c:678-708 | a higher failed step is never followed by a lower next step |
| StepTable.LoopStepGrows | src/base/dsa2.c:678-726 | within a loop of any length and any step table the step never decreases nor exceeds the last |
| StepTable.LoopReachesLast | src/base/dsa2.c:678-726 | once at most two tries remain, and one failed, the step is the last |
| StepTable.LoopStepMonotone | src/base/dsa2.c:678-726 | starting a loop at a higher step never gives a lower step later |
| StepTable.MultiplierToStep | src/base/dsa2.c:552-568 | the loop finds the first step at or above the floor that is not shorter than the multiplier, or the last |
| StepTable.StepForIsFirst | src/base/dsa2.c:552-568 | that step is determined by being the first long enough |
| StepTable.MultiplierOfStep | src/base/dsa2.c:997-1007 | turning a step into its multiplier and back gives the step |
| Dsa2.ResultsTable.constructor | src/base/dsa2.c:404-420 | a new table starts at the initial step with an empty ring |
| Dsa2.ResultsTable.AdjustForRecentSuccesses | src/base/dsa2.c:737-846 | returns and counts the verdict on the last ten successes (which VerdictOnEntries states from the entries alone), the returned step being the one before a raise; the three asserts hold |
| Dsa2.ResultsTable.NoteRetryableFailure | src/base/dsa2.c:858-878 | counts the failure and climbs the loop step, and changes nothing else |
| Dsa2.ResultsTable.RecordFinal | src/base/dsa2.c:901-994 | leaves every field of the table as FinalOutcome says (which SuccessOnEntries, LoweredIff and FailureOnEntries state from the entries alone), or ends at the assert it names |
| Dsa2.ResultsTable.Rewind | src/base/dsa2.c:590-612 | sets the steps and zeroes the counters of one table, keeping its ring |
| Dsa2.ResultsTable.AdjustedMultiplier | src/base/dsa2.c:1023-1034 | the multiplier is the one whose step is the retry loop step, and is read outside the array exactly when that step is not in it |
| Dsa2Properties.NoteFailureKeepsTable | src/base/dsa2.c:858-878 | cur_step <= loop step <= last is kept, whatever sign the step has, and the loop step only grows |
| Dsa2Properties.RecordFinalKeepsTable | src/base/dsa2.c:901-994 | from ordered steps, negative or not, no assert fails, the result is ordered, at or above the floor, and the loop restarts at the new step |
| Dsa2Properties.RecordFinalAccounts | src/base/dsa2.c:806-839 | the step changes by what is counted up minus what is counted down, plus one when a decrement was counted twice |
| Dsa2Properties.EasySuccessNeverRaises | src/base/dsa2.c:806-839 | after a success without null messages in few tries the step goes down by one or stays, but for the floor |
| Dsa2Properties.RaiseIsUndone | src/base/dsa2.c:806-826 | after such a success a raise is counted once up and once down and leaves the step as it was |
| Dsa2Properties.RaisedIff | src/base/dsa2.c:901-994 | exactly when an operation leaves a higher step than it found |
| Dsa2Properties.RatchetsHold | src/base/dsa2.c:823-839 | a decrement never goes below the null message ratchet, and both ratchets only grow |
| Dsa2Properties.RunIsSafe | src/base/dsa2.c:737-994 | no run of operations on a table with ordered steps fails an assert; the step ends non-negative if and only if it was, or an operation was recorded while enabled |
| Dsa2Properties.RunAccounts | src/base/dsa2.c:806-988 | over any run cur_step = start + total_steps_up - total_steps_down + the number of decrements taken |
| Dsa2Properties.FailuresClimb | src/base/dsa2.c:858-878 | the failures of any loop, whatever its caller passes as remaining, keep the steps in order, and reach the last step once 1 or 2 is passed |
| Dsa2Properties.FailureEndsAtLastStepIff | src/base/dsa2.c:963-988 | after a failure the next operation starts at the last step if and only if the loop climbed to it or the one before, or the floor is the last step |
| Dsa2Properties.PlainFailuresSteps | src/base/dsa2.c:678-726 | a loop whose caller passes the tries that do remain climbs as the step rule driven over the loop does |
| Dsa2Properties.FailedLoopEndsAtLastStep | src/base/dsa2.c:858-994 | such a loop of two or more tries that all fail leaves the next operation at the last step; were its status "all responses null", which no caller passes, the step would stay |
| Dsa2Entries.SuccessOnEntries | src/base/dsa2.c:737-994 | what recording a success leaves, from the entries of the ring alone: ring, counts, interval, and a step that is up by one from the loop's after a null response or more than three tries, down by one when recent entries call for it, and else what it was but for the floor; an easy success counts a raise exactly when recent entries call for one |
| Dsa2Entries.LoweredIff | src/base/dsa2.c:650-994 | after an easy success with the loop at the current step above the floor the step goes down by one if and only if at least five of the last ten entries are there, each took at most two tries and their tries sum to less than 1.2 times their number, and the step is above 0 and above the smaller of 3 and the ratchet; no raise is counted |
| Dsa2Entries.SuccessCounts | src/base/dsa2.c:737-994 | every other field after a success: a raise that recent entries call for is counted up, a lowering down, and then the difference to the step that is left; look back and average are those of the entries consulted; nothing else changes but the ratchet |
| Dsa2Entries.VerdictOnEntries | src/base/dsa2.c:629-846 | after an easy success the verdict is to raise if and only if the loop is above the current step and some entry of the last ten took more than the bound on tries, or they took too many on average; it is to lower if and only if not that, and few tries were taken, and neither limit is reached |
| Dsa2Entries.AverageAtMost | src/base/dsa2.c:640-658 | comparing the truncated average in tenths is comparing the sum with a multiple of the number of entries |
| Dsa2Entries.FailureOnEntries | src/base/dsa2.c:901-994 | recording a failure leaves the ring as it was, notes the highest failed step and the ratchet, begins a new interval, and goes one step above the loop, but for the floor and the last step |
| Dsa2Entries.FailuresAreCounted | src/base/dsa2.c:858-878 | the failures of a loop are counted, the null responses among them on their own, and nothing but the loop step changes besides |
| Dsa2Entries.NullInLoopRaises | src/base/dsa2.c:858-952 | a success after a loop in which a null response was noted goes one step above the loop |
| RetryLoop.WriteReadWithRetry | src/ddc/ddc_packet_io.c:784-1033 | the try loop, counting null and all-zero responses and driving the table in place, makes the tries that TriesMade says, does to the table what WriteRead says and returns what ReturnedIs says |
| RetryLoop.WriteReadIsSafe | src/ddc/ddc_packet_io.c:814-981 | whatever the tries come to, no assert of the table fails and its steps stay ordered; a bus that is gone leaves the climbed loop step |
| RetryLoop.FailedOperationIff | src/ddc/ddc_packet_io.c:945-981 | the status recorded is the last try's, so not "all responses null", which no try gives, and a failed operation leaves the next one at the last step if and only if its loop climbed to it or the one before, or the floor is the last step |
| RetryLoop.FullLoopEndsAtLastStep | src/ddc/ddc_packet_io.c:945-981 | a failed operation that makes all of two or more tries leaves the next one at the last step, unless it has four or more and its last but one try got a null response that may mean unsupported |
| RetryLoop.MixedNullsStayBelow | src/ddc/ddc_packet_io.c:945-981 | a failing table read of ten tries from step 0 for which the tries passed go below zero, and which leaves the next operation at step 7 |
| RetryLoop.AllNullOperation | src/ddc/ddc_packet_io.c:854-1015 | a read whose responses are all null and may mean unsupported ends within four tries, is recorded as one null response, and leaves the next operation at the last step |
| RetryLoop.AllNullIsReturnedIff | src/ddc/ddc_packet_io.c:1000-1013 | "all responses null" is returned if and only if more than three responses were null and some response was not |
| RetryLoop.TriesMade | src/ddc/ddc_packet_io.c:814-956 | the tries made are those up to the first that succeeds, fails for good, has its all-zero response accepted or brings a fourth counted null response, or all that are allowed; nothing is returned from the loop exactly when the bus is gone after one of them |
| RetryLoop.ReturnedIs | src/ddc/ddc_packet_io.c:919-1015 | the value returned, from the tries and the request alone: not negative if and only if the last try made was not, and then its status; else that the tries ran out, "all tries zero", "unsupported", "all responses null" or the last status, each exactly when |
| RetryLoop.FailureIsReturned | src/ddc/ddc_packet_io.c:905-1015 | after a last try of -EIO, -EBADF, -ENXIO or -EBUSY on a bus that is still there that status is returned; when all tries allowed end in other errors, without counted null or accepted all-zero responses, that the tries ran out |
| RetryLoop.ZerosEndAtOnce | src/ddc/ddc_packet_io.c:890-904 | an accepted all-zero response ends the loop, so all tries can have been zero only in a loop of one |
| RetryLoop.TableIsTold | src/ddc/ddc_packet_io.c:945-956 | the table has been told of every failed try but the last made, in order, with the tries that remain, or 2 less those made before for a counted null response |
| RetryLoop.SuccessIsRecorded | src/ddc/ddc_packet_io.c:919-981 | a success at try n is recorded with n tries at the step of the loop |
| Dsa2Properties.IntervalCounts | src/base/dsa2.c:950-957 | over any number of three-try successes the interval is counted down and begun again, or runs below zero if it was not positive |
| Dsa2Properties.ConsultedEveryThird | src/base/dsa2.c:950-957 | such successes consult the recent ones when the interval ends and then every third time, and never if the interval was not positive |
| Dsa2World.CachedTableOkIff | src/base/dsa2.c:1337-1416 | a table read from the cache has its steps ordered, and within the step table if and only if its step is not negative |
| Dsa2World.LookupVerifies | src/base/dsa2.c:484-518 | a table handed out has had its check byte compared; looking again changes nothing |
| Dsa2Lookups.LookupGives | src/base/dsa2.c:484-518 | a slot that is empty, or holds an unverified table from the file with another check byte, gives with `create` a fresh table with an empty ring, both steps the initial one and the monitor's check byte, and without `create` none; any other gives its table, marked detected and, if from the file, verified |
| Dsa2Lookups.GivenTableIsTheMonitors | src/base/dsa2.c:450-518 | in every history, whatever files are read, while the monitor on a bus stays the same a lookup gives only a table made or saved for it |
| Dsa2Lookups.ResetGives | src/base/dsa2.c:450-476 | a reset table is fresh and begins with the first step from the floor on as long as the multiplier, 1 standing for a negative one |
| Dsa2Lookups.RewindGives | src/base/dsa2.c:590-612 | a new multiplier sets the initial step and the steps and counters of every table but the last bus's, and nothing else |
| Dsa2Lookups.SettingsTake | src/base/dsa2.c:76-101 | a setting is taken exactly if it is within its bounds, and changes no table |
| Dsa2World.StepIsSafe | src/base/dsa2.c:450-612 | lookups, resets, files with any steps and rings, recorded operations and setting changes all keep the steps of every table ordered and fail no assert |
| Dsa2World.EveryHistoryIsSafe | src/base/dsa2.c:737-994 | in every history from the start the steps of every table are ordered and no possible next step fails an assert, whatever the files hold |
| Dsa2World.RaiseIsReached | src/base/dsa2.c:806-826 | a history whose second try gets a verdict to raise, after which the step is what it was |
| Dsa2World.OneFailureHappens | src/base/dsa2.c:484-518 | that history exists |
| Dsa2World.RowSays | src/base/dsa2.c:1337-1395 | the bus and the sign of the step that a line gives are those of the table read from it |
| Dsa2World.InstalledSlot | src/base/dsa2.c:1337-1416 | a slot holds the table of the last line for its bus, or what it held before |
| Dsa2World.RestoreGives | src/base/dsa2.c:1292-1443 | without a file or with an empty one nothing changes; an unreadable file or unknown format is reported and changes nothing; else a single invalid line is reported and empties all tables |
| Dsa2World.RestoreInRangeIff | src/base/dsa2.c:1337-1430 | reading a file leaves every step non-negative if and only if it has an invalid line or the last line of each bus gives a step that is not negative |
| Dsa2World.HistoryInRangeIff | src/base/dsa2.c:737-1443 | 0 <= cur_step <= loop step <= last in every table of every world of a history if and only if no file with nothing wrong in it gave a negative step last for a bus |
| Dsa2World.NegativeStepReadsOutside | src/base/dsa2.c:1023-1034 | a negative step given last for a bus becomes its retry loop step, so its multiplier would be read before the array |
| Dsa2World.NegativeStepIsAccepted | src/base/dsa2.c:1357-1416 | what saving a table with a negative step writes is restored without complaint, the step negative |
| Text.ReadBackInt | src/util/string_util.c:1018-1089 | a printed number that fits is read back as itself |
| Text.NumberIsRead | src/util/string_util.c:1018-1089 | a number is read however it is written, with space and a sign before it, as an int if it fits and as a long brought to the limits of one |
| Text.ReadIsWritten | src/util/string_util.c:1018-1089 | nothing else is read as a number |
| Text.ReadBackHexByte | src/util/string_util.c:1143-1201 | a byte printed as two hex digits is read back as itself |
| Text.ByteIsRead | src/util/string_util.c:1143-1201 | two hex digits in either case are read as their byte, with or without the prefix 0x or x or the suffix h |
| Text.SplitJoin | src/util/string_util.c:461-506 | splitting at spaces undoes joining with them |
| StatsFile.ReadBackInvocation | src/base/dsa2.c:1250-1283 | a printed ring entry is parsed back to the same entry |
| StatsFile.ReadBackTable | src/base/dsa2.c:1337-1416 | a printed table line is read back with bus number, check byte, step, interval and ring |
| StatsFile.PrintedLine | src/base/dsa2.c:1160-1204 | what a line looks like: bus, check byte, step, interval, look back, ring |
| StatsFile.FormatIs | src/base/dsa2.c:1319-1334 | the first line declares format 1 or 2, or none that is known |
| StatsFile.LineIsValidIff | src/base/dsa2.c:1337-1407 | a line is skipped if it is empty or a comment, and else valid if and only if its fields and all its ring entries are, in either format |
| StatsFile.LineGives | src/base/dsa2.c:1337-1416 | the table that a valid line of either format gives: its step at most the last, the last hundred ring entries in order |
| StatsFile.SaveThenRestore | src/base/dsa2.c:1108-1443 | restoring what was saved overlays exactly the saved tables on what was there and succeeds |
| StatsFile.RoundTripIsIdentity | src/base/dsa2.c:1108-1443 | every table below the last bus comes back with the same contents, no other appears, and the last bus is lost |
| TableStore.Store.GetTable | src/base/dsa2.c:484-518 | the array after a lookup is the one that Lookup gives, every other table unchanged |
| TableStore.Store.SetSlot | src/base/dsa2.c:1408-1409 | putting a table in its slot changes no other slot |
| TableStore.Store.ChangeOn | src/base/dsa2.c:858-994 | noting a failure or recording an operation on the table of one bus changes that slot only, to what the step of the world says |
| TableStore.Store.RewindTables | src/base/dsa2.c:590-612 | every table but the last bus's is rewound in place |
| TableStore.Store.SaveStats | src/base/dsa2.c:1160-1204 | the lines written are those of Save, whatever the rotation of each ring |
| TableStore.Store.AddInvocations | src/base/dsa2.c:1250-1283 | parsing ring entries in order fills the ring with the last hundred of them, or fails on the first bad one |
| TableStore.Store.RestoreStats | src/base/dsa2.c:1292-1443 | the array after reading a file is the one that Restore gives; an invalid line empties it |
| DdcPackets.DdcChecksum | src/base/ddc_packets.c:80-91 | the accumulation loop computes the XOR of the message with its first byte replaced in a reply |
| DdcPackets.CreateBaseRequest | src/base/ddc_packets.c:291-321 | fills a fresh packet with exactly the framed bytes and its type |
| DdcPackets.RequestIsWellFormed | src/base/ddc_packets.c:291-321 | a request of up to 32 data bytes has the right header and length, XORs to zero over its whole length and carries its data |
| DdcPackets.RequestIsDetermined | src/base/ddc_packets.c:291-321 | a well formed request is the one built from its source address and data |
| DdcPackets.CreateMultiPartReadRequest | src/base/ddc_packets.c:333-371 | the request for either kind of multi-part read |
| DdcPackets.UpdateOffset | src/base/ddc_packets.c:379-416 | patches the packet in place to the bytes WithOffset gives |
| DdcPackets.UpdateOffsetIsFaithful | src/base/ddc_packets.c:379-416 | the patched request is well formed, asks for the offset by the rule replies are read with, and differs only in offset and checksum |
| DdcPackets.UpdateOffsetOverwrites | src/base/ddc_packets.c:379-416 | the result does not depend on the earlier offset |
| DdcPackets.RequestNames | src/base/ddc_packets.c:333-416 | an updated request, byte for byte: the kind of read, the feature of a table read, the offset high byte first |
| DdcPackets.CreatedAgreesWithUpdatedIff | src/base/ddc_packets.c:333-416 | creating at an offset equals updating to it if and only if bits 8-15 of the offset equal bits 16-23 |
| DdcPackets.AgreementIsBelow256 | src/base/ddc_packets.c:333-416 | for 16-bit offsets that means below 256 |
| DdcPackets.CreatedAt256AsksFor0 | src/base/ddc_packets.c:333-371 | a request created at offset 256 asks for offset 0 |
| DdcPackets.CreateSetVcpRequest | src/base/ddc_packets.c:498-517 | the Set VCP packet, with the alternative source address when one is set |
| DdcPackets.SetVcpCarriesValue | src/base/ddc_packets.c:498-517 | the packet, byte for byte: it comes from the alternative source address or else 0x51, names the feature and carries the low 16 bits of the value |
| DdcResponses.CreateBaseResponse | src/base/ddc_packets.c:559-629 | the framing layer's status, and a packet exactly when it is ok |
| DdcResponses.CreateResponse | src/base/ddc_packets.c:648-701 | the type layer's status after the double byte quirk, with the data of the accepted frame |
| DdcResponses.InterpretFragment | src/base/ddc_packets.c:720-755 | the offset and bytes of a fragment; neither assert can fail |
| DdcResponses.InterpretVcp | src/base/ddc_packets.c:816-902 | the value or the "unsupported" answer of a feature query, and its error cases |
| DdcResponses.CreateTypedResponse | src/base/ddc_packets.c:959-1039 | the whole parser: its status, a packet exactly when ok, and what it parsed |
| DdcResponses.AcceptedIffAnswer | src/base/ddc_packets.c:559-1039 | a response is accepted if and only if it frames a payload that answers the request, and is a null response if and only if it frames nothing |
| DdcResponses.StripFindsFrame | src/base/ddc_packets.c:662-667 | no frame is mistaken for the double byte quirk, and a frame behind an extra 0x6e is found |
| DdcResponses.ParsingUndoesFraming | src/base/ddc_packets.c:559-701 | a framed payload of 1 to 35 bytes is recovered, with or without the quirk, whatever follows it |
| DdcResponses.CorruptionIsDetected | src/base/ddc_packets.c:574-610 | changing any one byte but the length byte makes a frame rejected |
| DdcResponses.ChangedLengthPassesIff | src/base/ddc_packets.c:574-610 | an accepted response with a changed length byte stays accepted if and only if the new length is allowed and the bytes it cuts off or takes in XOR to the change |
| DdcResponses.CorruptLengthPassesIff | src/base/ddc_packets.c:574-610 | the same of a frame and anything behind it |
| DdcResponses.CutShortPassesIff | src/base/ddc_packets.c:574-610 | a shorter length passes if and only if the byte it ends at is the checksum of what is left, which is then the data |
| DdcResponses.CorruptTopBitIsDetected | src/base/ddc_packets.c:574-610 | a change of the top bit of the length byte alone is always rejected |
| DdcResponses.QuirkMakesNullResponse | src/base/ddc_packets.c:648-701 | a frame whose length byte, changed to 0x6e, is stripped as a double byte and taken for a null response |
| DdcResponses.ValueLengthIsProtected | src/base/ddc_packets.c:816-1039 | the whole parser rejects a value reply with any change of its length byte |
| DdcResponses.FragmentLengthPassesIff | src/base/ddc_packets.c:648-1039 | the whole parser accepts a fragment with a changed length byte if and only if the length leaves the header, is allowed, and the bytes cut off or taken in XOR to the change |
| DdcResponses.CorruptLengthIsNotDetected | src/base/ddc_packets.c:574-610 | a frame whose changed length byte passes |
| DdcResponses.ValueIsReadBack | src/base/ddc_packets.c:816-902 | 16-bit maximum and current values are read back from the answer that carries them |
| DdcResponses.ValueReplyIsRead | src/base/ddc_packets.c:816-902 | of any frame around an answer to a value query, with or without the doubled byte, the parser makes a valid response with the code asked for; it is supported if and only if the result byte is 0, and carries data bytes 4 to 7 then and zeros else |
| DdcResponses.AcceptedValueReads | src/base/ddc_packets.c:648-1039 | the same of any accepted value reply, from the bytes in the buffer |
| DdcResponses.AcceptedFragmentReads | src/base/ddc_packets.c:648-1039 | an accepted fragment is read as its offset, high byte first, and the bytes behind it |
| DdcResponses.StatusIs | src/base/ddc_packets.c:960-1039 | a response of an expected type is accepted, bad or null; the internal error is left for other types |
| MultiPart.ReadOn | src/ddc/ddc_multi_part_io.c:53-154 | whatever a display sends, a read ends, and a complete one fits the accumulator |
| MultiPart.TryMultiPartRead | src/ddc/ddc_multi_part_io.c:53-154 | the fragment loop, patching one request and filling the accumulator in place, computes ReadOn |
| MultiPart.FetchFragment | src/ddc/ddc_multi_part_io.c:76-137 | one round asks for the current offset and takes only a fragment for that offset |
| MultiPart.FetchBrings | src/ddc/ddc_multi_part_io.c:76-137 | what one exchange brings, from the bytes of the reply: a fragment is taken if and only if the parser accepts the reply and the offset in it is the one asked for |
| MultiPart.ReadIsARun | src/ddc/ddc_multi_part_io.c:53-154 | whatever a display sends, a read is a run of parts, each taken for the offset where those before it end, and ends with the first exchange that brings none or one too many |
| MultiPart.PartsAddUp | src/ddc/ddc_multi_part_io.c:53-154 | fragments of any sizes that are each taken from the content at the offset asked for add up to the content |
| MultiPart.HonestFetch | src/ddc/ddc_multi_part_io.c:76-137 | an honest reply, framed with or without the quirk, is parsed to the part of the content at the offset asked for |
| MultiPart.ReadDeliversIff | src/ddc/ddc_multi_part_io.c:53-154 | from a display that answers honestly a read brings the whole content if and only if it is at most 2046 bytes long, and ends at the assert otherwise |
| MultiPart.FullFragmentsAreHonest | src/ddc/ddc_multi_part_io.c:53-154 | for every content there is a display that answers honestly, so a read of more than 2046 bytes does end the program |
| TableWrite.CreateMultiPartWriteRequest | src/base/ddc_packets.c:429-461 | the packet for a fragment of at most 28 bytes; 29 to 31 bytes pass its own assert and end the program at the one on the base request, more end it at its own |
| TableWrite.MakeRequest | src/ddc/ddc_multi_part_io.c:323-335 | the write loop makes each request without reaching either assert |
| TableWrite.TryMultiPartWrite | src/ddc/ddc_multi_part_io.c:302-347 | writes the fragment requests in order up to the first failure, and all of them with an empty one last if none fails |
| TableWrite.RequestsName | src/ddc/ddc_multi_part_io.c:302-347 | every request of a write, byte for byte: the feature, the offset with bits 16 to 23 for 8 to 15, 28 bytes of the value or what is left; and how many there are |
| TableWrite.ReceivedIsStored | src/ddc/ddc_multi_part_io.c:302-347 | what a display holds that stores each request's bytes at the offset the request carries |
| TableWrite.ValueArrivesIff | src/base/ddc_packets.c:429-461 | a table value arrives whole if and only if it is at most 280 bytes long |
| DisplayLockSafety.StepKeepsInv | src/base/display_lock.c:123-593 | every step of every thread keeps the invariant and touches nothing that names another thread |
| DisplayLockSafety.EveryStateHasInv | src/base/display_lock.c:123-593 | the invariant holds in every state of every interleaving |
| DisplayLockSafety.OwnersAreHolders | src/base/display_lock.c:197-268 | a non-null owner field names the holder of the mutex, and only the holder releases it |
| DisplayLockSafety.NoSelfDeadlock | src/base/display_lock.c:211-268 | a thread never waits for a display mutex it holds, nor while it holds the master or descriptor mutex |
| DisplayLockSafety.CallsReturn | src/base/display_lock.c:197-593 | lock returns "already open" exactly to the owner, unlock succeeds exactly for the owner, bulk release counts what was owned and leaves nothing |
| DisplayLockSafety.RecordsAreStable | src/base/display_lock.c:123-148 | no io path has two records and a record is never replaced |
| DisplayLockCalls.EveryCallServes | src/base/display_lock.c:123-593 | in every state of every interleaving a thread is where the call it began last has led it |
| DisplayLockCalls.CallWorksOnItsPath | src/base/display_lock.c:123-500 | a call begun with a path works from the moment it has found a record to its return on the record of that path; a lock call stays one and waits only if asked to, an unlock call stays one |
| DisplayLockCalls.CallWorksOnItsRecord | src/base/display_lock.c:197-593 | the same of calls by record and of bulk releases |
| DisplayLockCalls.OneOwner | src/base/display_lock.c:197-268 | in no state of any interleaving do two threads own the display of a path |
| DisplayLockCalls.ReturnsSayOwnership | src/base/display_lock.c:197-500 | a lock call by path that has returned owns the display of that path if and only if it did not report it locked; after an unlock call by path the thread does not own it |
| DisplayLockCalls.OwnershipEnds | src/base/display_lock.c:443-593 | a display stops being owned only by its owner, in an unlock call for it or a bulk release |
| DisplayLockSafety.OnlyOwnThreadWrites | src/base/display_lock.c:259-262 | only a step of thread t makes an owner field name t or stop naming it |
| DisplayLockSafety.PollingGivesUp | src/base/display_lock.c:228-256 | a polling lock call never blocks and gives up exactly when its tenth try fails |
| DisplayLockSafety.InternalHolderRuns | src/base/display_lock.c:123-148 | the holder of the master or descriptor mutex can always go on |
| DisplayLockSafety.BlockedBy | src/base/display_lock.c:197-593 | a thread inside a call is blocked only by one that can run, or by the holder of the display it waits for |
| DisplayLockDeadlock.BlockedThreadWaits | src/base/display_lock.c:197-593 | if nobody inside a call can run, each thread inside one waits for a held display |
| DisplayLockDeadlock.NobodyRunsIff | src/base/display_lock.c:197-593 | nobody inside a call can run if and only if each of them begins a chain of threads waiting for each other that ends with an owner outside any call or in a cycle |
| DisplayLockDeadlock.DeadlockIff | src/base/display_lock.c:197-593 | the same in every state of every interleaving |
| DisplayLockDeadlock.OneDisplayAtATime | src/base/display_lock.c:197-593 | if no waiting thread holds a display, then nobody can run only when each waits for an owner outside any call |
| DisplayRefs.FindLatest | src/base/displays.c:1096-1150 | the first pass finds how many references match and the first with the highest timestamp |
| DisplayRefs.MarkOlder | src/base/displays.c:1152-1178 | the recovery pass flags exactly the older matches |
| DisplayRefs.GetDref | src/base/displays.c:1081-1183 | the lookup, in place, gives what LookUp says |
| DisplayRefs.LookUpOutcome | src/base/displays.c:1096-1178 | exactly when a lookup fails its assert, dereferences null, and returns a reference |
| DisplayRefs.LookUpFindsAsked | src/base/displays.c:1096-1183 | the reference found is an I2C display's, valid if invalid ones are ignored, with the bus number or connector asked for, and none of those is newer; none is found only if none of those has a timestamp |
| DisplayRefs.LookUpSucceedsIff | src/base/displays.c:1081-1183 | a lookup leaves its answer as the only match if and only if every match without a timestamp, and every two with the same, are beaten by a newer one |
| DisplayRefs.LookUpFindsNewest | src/base/displays.c:1081-1183 | such a lookup finds the newest match, flags every other one and changes nothing else |
| DisplayRefs.LookUpTwice | src/base/displays.c:1081-1183 | a second lookup after any answered one gives the same answer and changes nothing |
| DisplayRefs.NothingLeftIff | src/base/displays.c:1152-1178 | it has nothing left to recover if and only if the matches were recoverable or one at most |
| DisplayRefs.EqualStampsAreNotRecovered | src/base/displays.c:1152-1178 | two matches with the same timestamp and no newer one both stay |
| DisplayRefs.LockDref | src/base/displays.c:797-830 | the backoff loop ends; it fails exactly when every try failed, having slept what that many doublings sum to, and oversleeps its limit exactly when it fails and no number of doublings sums to the limit |
| DisplayRefs.SleptIsGeometric | src/base/displays.c:797-830 | after k failed tries the sleep is w * (2^k - 1) |
| DisplayRefs.SleptIsBounded | src/base/displays.c:797-830 | the sleep is always below twice the limit plus the interval |
| DisplayRefs.LockDrefDefault | src/base/displays.c:797-830 | with the code's limit of 1000 ms a call fails exactly when five tries fail, and has then slept 1550 ms |
| DisplayRefs.DrefTable.NextId | src/base/displays.c:515-522 | over any run of calls an id is given again exactly after 2^32 calls, and id 0 exactly at their multiples |
| DisplayRefs.IdsDifferIff | src/base/displays.c:515-522 | the ids of any number of calls are all different if and only if the calls are at most 2^32 |
| DisplayRefs.DrefTable.Publish | src/base/displays.c:525-536 | publishing puts a reference under its id |
| DisplayRefs.DrefTable.Delete | src/base/displays.c:539-549 | deleting takes one id out |
| DisplayRefs.DrefTable.Lookup | src/base/displays.c:571-600 | what is found under an id has it, and is the only reference that does while at most 2^32 were created |
| FeatureLists.FeatureList.Add | src/base/feature_lists.c:68-75 | insertion into the set a list denotes |
| FeatureLists.FeatureList.Contains | src/base/feature_lists.c:78-90 | membership in that set |
| FeatureLists.FeatureList.Or | src/base/feature_lists.c:93-103 | union |
| FeatureLists.FeatureList.And | src/base/feature_lists.c:106-116 | intersection |
| FeatureLists.FeatureList.AndNot | src/base/feature_lists.c:119-134 | difference |
| FeatureLists.FeatureList.CountOld | src/base/feature_lists.c:137-149 | the 256-step count is the cardinality of the set |
| FeatureLists.FeatureList.Count | src/base/feature_lists.c:152-168 | the clear-lowest-bit loop over four 64-bit words counts the same, so the assert on line 166 holds |
| FeatureLists.ClearedIsWord | src/base/feature_lists.c:158-163 | v & (v - 1) clears the lowest set bit of the first non-zero byte of the word |
| FeatureLists.ClearedHasOneLess | src/base/feature_lists.c:158-163 | which leaves exactly one bit less |
| FeatureLists.ZeroHasNoBits | src/base/feature_lists.c:158-163 | the loop ends only when no bit is left |
| FeatureLists.CountIsPop | src/base/feature_lists.c:152-168 | counting code by code and byte by byte agree |
| FeatureText.ThreadText.Print | src/base/feature_lists.c:182-227 | the codes in ascending order with separators only between them, in the kept buffer unless that is too small, never written past its end |
| FeatureText.AscendingListsTheCodes | src/base/feature_lists.c:216-219 | the codes written are the list's, each once, in ascending order |
| FeatureText.RoomForOneMore | src/base/feature_lists.c:203-219 | while a code is still to be written the buffer sized from the count has room for it |
| FeatureText.TerminatedIsRendered | src/base/feature_lists.c:220-221 | cutting the last separator leaves separators only between values |
| FeatureText.RenderedText | src/base/feature_lists.c:182-227 | what the text of a list looks like |
| RetryHistogram.PerDisplayData.Record | src/base/display_retry_data.c:152-170 | the counters keep saying how often each outcome occurred, modulo 2^16, and other types' rows stay |
| RetryHistogram.CountersSay | src/base/display_retry_data.c:152-170 | each counter, modulo 2^16: the first how many operations failed for good, the second how many ran out of tries, the others how many succeeded, by the tries they took |
| RetryHistogram.PerDisplayData.Total | src/base/display_retry_data.c:173-181 | the sum of a row is the number of operations recorded for the type if and only if no counter wrapped |
| RetryHistogram.PerDisplayData.IndexOfHighest | src/base/display_retry_data.c:216-226 | the last non-zero success counter, or 1 |
| RetryHistogram.PerDisplayData.Report | src/base/display_retry_data.c:283-291 | the truncated total equals the full one, so the assert holds |
| RetryHistogram.CountersCoverOperations | src/base/display_retry_data.c:152-170 | every operation of a type belongs to exactly one counter |
| RetryHistogram.SumCountsOperationsIff | src/base/display_retry_data.c:152-181 | the counters add up to the operations if and only if none of them wrapped |
| RetryHistogram.TruncatedSumIsWhole | src/base/display_retry_data.c:283-291 | the sum up to the highest success plus the two failure counters is the whole sum, for any counters |
| EdidXref.XrefTable.NewWithBusno | src/app_sysenv/query_sysenv_xref.c:210-227 | adds an unmarked entry exactly for a new non-negative bus number, so bus numbers stay distinct |
| EdidXref.XrefTable.FindByBusno | src/app_sysenv/query_sysenv_xref.c:182-201 | finds the entry of a bus, or there is none |
| EdidXref.XrefTable.FindByEdid | src/app_sysenv/query_sysenv_xref.c:107-119 | finds the first entry with an EDID; after the scan an unmarked one is the only one |
| EdidXref.XrefTable.CountByEdid | src/app_sysenv/query_sysenv_xref.c:49-60 | counts the entries with an EDID |
| EdidXref.XrefTable.MarkDuplicateEdid | src/app_sysenv/query_sysenv_xref.c:37-46 | marks exactly the entries with an EDID, besides those marked before |
| EdidXref.XrefTable.MarkDuplicateEdids | src/app_sysenv/query_sysenv_xref.c:64-73 | afterwards an entry is marked if and only if another entry has its EDID, although the loop skips the last entry |
| EdidXref.TwinIsSecondOccurrence | src/app_sysenv/query_sysenv_xref.c:64-73 | an EDID counted more than once is one that another entry has too |
| EdidXref.XrefTable.SetScanComplete | src/app_sysenv/query_sysenv_xref.c:78-87 | after the scan the marks are exact |

## Left out

- I2C, sysfs, udev, X11 and USB access, shell commands, opening and locating files: what they yield is a parameter (the lines of the stats file after trimming, a monitor's check byte, replies, whether a try for a mutex succeeds, the current time).
- Tracing, syslog, reports and the text of messages: no state that matters here.
- `malloc`, markers and glib containers as such: classes, sequences and maps stand for them.
- Floating point rounding: multipliers and shares are exact rationals, tables of multipliers are hundredths.
- Overflow of C `int` counters and sums: counters are unbounded, except the 16-bit histogram counters and the 32-bit reference id, which wrap.
- Reading past the end of a short response: the parser's methods require the bytes it reads to be there (`Readable`), which the source does not check.
- A bus number above 64 in the stats file, which the source uses as an index unchecked: `FileFits` excludes it.
- Pointers to a table kept elsewhere after the table has been reset or restored.
- `linux_thread_id` in a lock record, a copy of the owner field used only in messages.
- Preventing deadlock between threads that wait for each other's displays: the source does not; `NobodyRunsIff` says exactly when it has come to that.
- The consistency assert on bus information inside the reference lookup.
- The outer retry loops of the multi-part operations: one exchange, tries included, is a parameter of the read and write loops. What a single try of the write-read loop comes to is a parameter of that loop.
- The second time the descriptor mutex is taken in a lock record lookup, for the text of a trace message: no stated property turns on it.
- TableWrite.ValueArrivesIff: is about a display that stores the bytes of each request at the offset it carries; what real monitors do with table writes is not known to the source.
- Building responses for testing (`create_ddc_multi_part_read_response_packet()` and its like) and the Get VCP and Save Settings requests: easy cases of the framing above.
- Reading format 1 of the stats file back after writing it: only format 2 is ever written; format 1 lines are parsed.
