# Verification of IOHIDFamily

Dafny models of the stateful and arithmetic cores of IOHIDFamily, and proofs
about them:

- **Report codec** (`Numbers`, `BitCodec`): bit fields of a report copied into
  32-bit words and back. A buffer is read as one little-endian number (section
  5.8 of the HID 1.11 class definition), so a field is some consecutive bits of
  a number.
- **Elements** (`ElementContainer`, `DescriptorLayout`, `ElementValues`,
  `ElementReading`, `ArrayReports`, `ArraysInForce`, `ElementReports`,
  `ReportMeaning`, `ReportRuns`): registration into the report-handler chains,
  the layout of all values in one buffer, reading a report into the values,
  making a report from them, and array items switched by comparing selector
  lists. A descriptor is followed from its lists of buttons and values to the
  bits that a report is read from, and a run of reports to the numbers and
  switched items that are left.
- **Asynchronous reports and commits** (`AsyncCalls`, `AsyncReports`,
  `AsyncCommits`, `AsyncProtocol`, `CommitProtocol`, `AsyncOutcomes`): the two lists of
  outstanding calls, raced by submissions, a worker thread, a deadline timer,
  transport completions and termination. The atomic steps are the regions
  between taking and dropping the lock; theorems hold in every reachable state.
- **Action queue** (`ActionQueue`): many producers, one handler.
- **Event serialisation** (`EventSerialization`, `EventParsing`): a tree of events
  written as flat records under a length limit, and the parser of such records
  on any buffer.
- **Acceleration** (`ScrollAcceleration`, `ParametricAcceleration`,
  `TableAcceleration`, `AccelerationTable`, `Reals`): the ring buffer of scroll
  events, the three-piece curve, the merging of two tables, and the walk over
  the bytes of a table.

Objects that change in place are classes; each method is proved against a
function of its old state (or a predicate over old and new state), and the laws
are proved about those functions and states. `dafny verify dfyconfig.toml`
checks everything.

Places where the code does not do what it is for, with the exact condition
under which it does:

- Writing a field that starts inside a byte, runs past it and ends on a byte
  boundary stores other bits (`BitCodec.WriteExactIffShape`,
  `BitCodec.WriteThenReadIff`, `BitCodec.MisWrittenValue`).
- A commit fires its completion twice, or early, when its last listed call is
  removed while its submission is in progress (`CommitProtocol.CommitFiresOnceIff`,
  `CommitProtocol.EarlyTerminationFiresTwice`).
- A parametric curve whose tangent speeds are the wrong way round falls, or has no
  value at all, beyond its first piece (`ParametricAcceleration.RisesIffOrdered`,
  `ParametricAcceleration.UndefinedIff`), and a blend of two curves in order can be
  such a curve (`ParametricAcceleration.BlendsOrderedIff`).
- Merged acceleration tables leave the convex combination where the low curve is
  above the high one (`TableAcceleration.MergeExactIff`); a parametric curve
  without a linear piece leaves its tangent (`ParametricAcceleration.AloneTailBelowTangentIff`);
  a report of a size that is not in whole bytes is made too short to be taken
  (`ElementReports.TakenIffWholeBytes`).
- A record with attributes counts them twice: it is refused when, behind its data,
  there is no room for the attributes once more (`EventParsing.AttributesSkipped`),
  and where the doubled count wraps or passes the end, data beyond the buffer is
  let through (`EventParsing.OverrunDecides`).

Where the comment in `IOHIDEventSystemPlugIns/IOHIDAccelerationAlgorithm.cpp:26`
and the code differ (gains are raised to a power together with the speed), the
model follows the code.

## Model

| member | source | states |
|---|---|---|
| `BitCodec.ReadReportBits` | IOHIDFamily/IOHIDElementPrivate.cpp:912-993 | the destination words become the words of the field (sign-extended when asked, old high bits kept on the copy path), nothing else is touched, and the changed flag tells whether anything differs |
| `BitCodec.ReadByPieces` | IOHIDFamily/IOHIDElementPrivate.cpp:942-992 | the loop over pieces that fit one byte and one word stores exactly the words of the field |
| `BitCodec.CopyBytesToWords` | IOHIDFamily/IOHIDElementPrivate.cpp:931-940 | the memory copy replaces the low bits of the words by the field and reports a difference |
| `BitCodec.StoredNumber` | IOHIDFamily/IOHIDElementPrivate.cpp:942-992 | the stored words, taken together as a little-endian number, are the field, for any width |
| `BitCodec.StoredSigned` | IOHIDFamily/IOHIDElementPrivate.cpp:964-979 | a signed field under 32 bits is stored as its two's complement value |
| `BitCodec.CopyAgreesWithLoop` | IOHIDFamily/IOHIDElementPrivate.cpp:931-940 | the memory copy and the bit loop agree exactly when the unused high bits of the last destination word were zero |
| `BitCodec.WriteReportBits` | IOHIDFamily/IOHIDElementPrivate.cpp:995-1037 | the report, as a number, changes in the field alone, to the written value |
| `BitCodec.WriteByPieces` | IOHIDFamily/IOHIDElementPrivate.cpp:1015-1036 | the loop with its copy in the middle, for every shape of field |
| `BitCodec.WriteFrame` | IOHIDFamily/IOHIDElementPrivate.cpp:995-1037 | a write keeps every field apart from the written one |
| `BitCodec.WriteExactIffShape` | IOHIDFamily/IOHIDElementPrivate.cpp:1010-1022 | over a zeroed field every value is written exactly if and only if the field does not start inside a byte, run past it and end on a byte boundary |
| `BitCodec.WriteThenReadIff` | IOHIDFamily/IOHIDElementPrivate.cpp:912-1037 | writing then reading gives back every value modulo 2^width, across any number of words, under that same condition and no other |
| `BitCodec.MisWrittenOne` | IOHIDFamily/IOHIDElementPrivate.cpp:1019-1022 | the value 1 is written wrongly in every field of the bad shape |
| `BitCodec.MisWrittenValue` | IOHIDFamily/IOHIDElementPrivate.cpp:1019-1022 | in a bad shape one value comes out right exactly when it repeats with the period of the copy |
| `ElementContainer.WalkIsComplete` | IOHIDFamily/IOHIDElementContainer.cpp:758-788 | the walk of a report goes strictly down in cookies and takes each element of the report that is no array item, and each array handler, exactly once, and no element of another report |
| `ElementContainer.StepSkipsNothing` | IOHIDFamily/IOHIDElementPrivate.cpp:1084-1126 | each step of the walk goes to a smaller cookie on the chain or ends, and passes over nothing that the report is for |
| `ElementContainer.RegisterKeeps` | IOHIDFamily/IOHIDElementContainer.cpp:534-581 | registering keeps every chain complete and descending, and arrays together behind their handlers |
| `ElementContainer.IOHIDElementContainer.RegisterElement` | IOHIDFamily/IOHIDElementContainer.cpp:534-581 | the element is appended, linked in front of its chain, and becomes the roll-over element if it is one |
| `ElementContainer.IOHIDElementContainer.CreateSubElements` | IOHIDFamily/IOHIDElementPrivate.cpp:424-515 | exactly the rest of a usage range, or one duplicate per slot, is registered in order; chains stay valid |
| `ElementContainer.IOHIDElementContainer.ArrayHandlerElement` | IOHIDFamily/IOHIDElementPrivate.cpp:650-721 | the handler is registered before its duplicates and its array is open for items |
| `ElementContainer.IOHIDElementContainer.HandlerFor` | IOHIDFamily/IOHIDElementPrivate.cpp:587-637 | an array child gets the handler of its collection, type, start bit and report; on first use the handler and one duplicate for every slot are registered |
| `ElementContainer.IOHIDElementContainer.ButtonElement` | IOHIDFamily/IOHIDElementPrivate.cpp:142-231 | exactly the button and the rest of its range are registered, in order; for an array button, its handler first if the array is new, then the items |
| `ElementContainer.IOHIDElementContainer.ValueElement` | IOHIDFamily/IOHIDElementPrivate.cpp:237-317 | exactly the value and the rest of its range are registered, several values of one usage as one wide element |
| `ElementContainer.IOHIDElementContainer.NullElement` | IOHIDFamily/IOHIDElementPrivate.cpp:364-383 | the NULL element and the handler its collection makes for it are registered, below all input elements of the report |
| `ElementContainer.IOHIDElementContainer.ReportHandlerElement` | IOHIDFamily/IOHIDElementPrivate.cpp:388-418 | one report-handler element for a report with input, none otherwise |
| `ElementContainer.IOHIDElementContainer.SetReportSize` | IOHIDFamily/IOHIDElementContainer.cpp:665-718 | the element of the report that was registered last keeps the size; an element of variable size marks it and, for input, the first report handler of the report |
| `ElementContainer.IOHIDElementContainer.CreateButtonElements` | IOHIDFamily/IOHIDElementContainer.cpp:410-454 | for any list of buttons in which the usages of an array are together, exactly their elements are added, in order, with handlers and ranges, and chains stay valid |
| `ElementContainer.IOHIDElementContainer.CreateValueElements` | IOHIDFamily/IOHIDElementContainer.cpp:456-500 | exactly the elements of the listed values are added, in order, each with its range |
| `ElementContainer.IOHIDElementContainer.CreateElementHierarchy` | IOHIDFamily/IOHIDElementContainer.cpp:163-242 | for any well-parsed descriptor the elements are exactly those of its collections, NULL elements with handlers, buttons, values and report handlers, in this order, and the chains are valid |
| `ElementContainer.MadeSlotted` | IOHIDFamily/IOHIDElementPrivate.cpp:650-721 | in the elements of every descriptor, each array handler is followed by one duplicate for every slot, at the bits of that slot, and all other array elements are one bit wide |
| `DescriptorLayout.ButtonIs` | IOHIDFamily/IOHIDElementPrivate.cpp:142-231 | what a button of a descriptor becomes, field by field: for a range that is no array, element i has usage usageMin + i, one bit at start bit + i, the report ID and limits 0 and 1; for an array, the items of its usages, all at the start of the array, behind a handler of all its bits and one duplicate at the bits of each slot if the array is new |
| `DescriptorLayout.ValueRangeIs` | IOHIDFamily/IOHIDElementPrivate.cpp:237-317 | what a value becomes: element i of a range has usage usageMin + i and one item at start bit + i times the item size; without a range one element of all items together; with the report ID and the limits of the value |
| `DescriptorLayout.ButtonInContainer` | IOHIDFamily/IOHIDElementContainer.cpp:163-242 | in the elements of every descriptor each button that is no array has its range, at these bits |
| `DescriptorLayout.ValueInContainer` | IOHIDFamily/IOHIDElementContainer.cpp:163-242 | and each value its own |
| `DescriptorLayout.ButtonDescribed` | IOHIDFamily/IOHIDElementContainer.cpp:410-454 | among the fields that the walk of a report takes is every button listed for it, bit by bit, and every array once, with all its bits and its limits |
| `DescriptorLayout.ValueDescribed` | IOHIDFamily/IOHIDElementContainer.cpp:456-500 | and every value listed for it, item by item |
| `DescriptorLayout.HandlerDescribed` | IOHIDFamily/IOHIDElementPrivate.cpp:388-418 | and, for an input report, the element that takes it whole |
| `ElementContainer.WalkTakesDescriptor` | IOHIDFamily/IOHIDElementContainer.cpp:758-788 | for every descriptor, report ID and type, the walk of a report takes exactly the fields that the descriptor gives the report (each element that is no array, with its range, and each array once), each once, the one listed last first |
| `ElementContainer.IOHIDElementContainer.Init` | IOHIDFamily/IOHIDElementContainer.cpp:65-103 | elements as made from the descriptor, with the sizes of all reports set, valid chains, and arrays with their slots |
| `ElementContainer.SizesAre` | IOHIDFamily/IOHIDElementContainer.cpp:634-718 | after all sizes are set, the last element of each listed report keeps the size of that report, and no other element of the report has changed its size |
| `ElementContainer.SizedIs` | IOHIDFamily/IOHIDElementContainer.cpp:665-718 | setting a size changes nothing but the size of the element of the report registered last, and, with an element of variable size in an input or feature report, its flag and those of the first report handler for input |
| `ElementValues.ValueSizeIs` | IOHIDFamily/IOHIDElementPrivate.cpp:884-898 | the computed size is the header and every bit of the element in whole words |
| `ElementValues.OrderIs` | IOHIDFamily/IOHIDElementContainer.cpp:617-628 | both passes visit every element that has a value exactly once |
| `ElementValues.Capacity` | IOHIDFamily/IOHIDElementContainer.cpp:594-606 | the first pass adds up exactly the values that the second pass lays out |
| `ElementValues.LaidOutTiles` | IOHIDFamily/IOHIDElementContainer.cpp:617-628 | values laid out one after the other are disjoint and use every word of the computed capacity |
| `ElementValues.ElementValues.constructor` | IOHIDFamily/IOHIDElementContainer.cpp:583-632 | the values tile the buffer, and each starts out cleared with its cookie and size |
| `ElementValues.SetMemoryForElementValue` | IOHIDFamily/IOHIDElementPrivate.cpp:1368-1382 | one value is cleared and set, no other word changes |
| `ElementValues.InitialIs` | IOHIDFamily/IOHIDElementPrivate.cpp:1368-1382 | a new value is its cookie, its size in bytes, and zeros |
| `ElementReading.BeginRead` | IOHIDFamily/IOHIDElementPrivate.cpp:1160-1193 | the first half of reading a value: odd generation, the field of the report as data, and the time of the report for an element that moved; nothing outside the value changes |
| `ElementReading.EndRead` | IOHIDFamily/IOHIDElementPrivate.cpp:1198-1236 | the second half: a time for a value that had none, and an even generation |
| `ElementReading.OneValueChanged` | IOHIDFamily/IOHIDElementContainer.cpp:617-628 | writing inside one value of the tiled buffer changes that value and no other |
| `ElementReports.ProcessElement` | IOHIDFamily/IOHIDElementPrivate.cpp:1072-1244 | which of the exits an element takes, what its turn does to all values (an array handler also writes its duplicates and items), and where the walk goes next |
| `ElementReports.ProcessReport` | IOHIDFamily/IOHIDElementContainer.cpp:758-788 | on a report that is long enough every element of the report that it reaches is read, but for a keyboard modifier exactly when the roll-over element, as the walk meets it, is set and has the time of the report; of its NULL elements the one registered last, and no other, gets the time; every array of the report is processed, and if all arrays were in force they are again; all other values are kept |
| `ReportRuns.Run` | IOHIDFamily/IOHIDElementContainer.cpp:583-788 | from new values on, after any run of long enough reports with rising time stamps: the duplicates of every array hold the slots of the last report that it took; the list it keeps is that of the last report that was accepted; each item with a nonzero selector, other than the roll-over item, is on exactly when its selector is in that list, and the roll-over item exactly when the slots hold nothing but ErrorRollOver; and every element that is no array and no keyboard modifier holds the number of its field in the last report it took, signed if a limit is negative. All of it is said of the reports alone |
| `ReportRuns.ShowsNext` | IOHIDFamily/IOHIDElementPrivate.cpp:1626-1754 | one more report, taken by an array or not, keeps the array in agreement with the reports so far: an unchanged list and a list of nothing but ErrorRollOver leave the last accepted one in force |
| `ReportRuns.ItemShows` | IOHIDFamily/IOHIDElementPrivate.cpp:1626-1754 | in numbers: item i is on exactly when the logical minimum plus i is in the last accepted list, but for selector 0 and a keyboard's ErrorRollOver |
| `ReportRuns.AcceptedNext` | IOHIDFamily/IOHIDElementPrivate.cpp:1689-1699 | a list that an array takes is accepted, but for one of nothing but ErrorRollOver on a keyboard with more than one slot |
| `ReportRuns.RollOverShows` | IOHIDFamily/IOHIDElementPrivate.cpp:1689-1699 | there, the ErrorRollOver item is on exactly when every slot holds ErrorRollOver |
| `ReportRuns.SelectorMeans` | IOHIDFamily/IOHIDElementPrivate.cpp:1674-1687 | entry i of the list that a report brings is the number in the bits of slot i, in two's complement if a limit is negative |
| `ReportMeaning.ProcessedMeans` | IOHIDFamily/IOHIDElementPrivate.cpp:1072-1244 | after one report, the number that an element of no array holds is that of its field: in two's complement exactly if one of the logical limits is negative and the field has at most 32 bits, else as it stands; but for a modifier that was passed over |
| `ReportMeaning.ProcessedKeeps` | IOHIDFamily/IOHIDElementPrivate.cpp:1099-1141 | an element keeps its value when the report has another ID or type, is not for handlers, or ends inside the field (before it, for variable size) |
| `ReportMeaning.LogicalValueRead` | IOHIDFamily/IOHIDElementPrivate.cpp:964-979 | a value between the logical limits that fits the field is read as itself, negative or not |
| `ReportMeaning.UnusedStays` | IOHIDFamily/IOHIDElementPrivate.cpp:931-940 | reading keeps the unused bits of a value zero, so the above holds of report after report |
| `ReportMeaning.ShortFieldRead` | IOHIDFamily/IOHIDElementPrivate.cpp:1164-1180 | of an element of variable size as many bits are read as the report has left, and the words behind them stay |
| `ReportMeaning.PassedOverIff` | IOHIDFamily/IOHIDElementPrivate.cpp:1143-1153 | a modifier, usage 0xE0 to 0xE7 of page 7, is passed over exactly if the roll-over element, as the walk meets it, reads as nonzero with the time of this report |
| `ReportMeaning.LongEnoughIff` | IOHIDFamily/IOHIDElementPrivate.cpp:1106-1115 | a report is refused exactly if it is shorter than the size its elements keep and one that keeps it does not know of variable size |
| `ReportMeaning.StampMoves` | IOHIDFamily/IOHIDElementPrivate.cpp:1183-1204 | when a time stamp moves: always if there was none; of an absolute element when its data changes or it handles reports; of a relative one unless it stays at zero in up to 32 bits |
| `ReportMeaning.GenerationMoves` | IOHIDFamily/IOHIDElementPrivate.cpp:1160-1236 | the generation goes up by one for the update and by one more after it, in 32 bits |
| `ElementReports.NullsNext` | IOHIDFamily/IOHIDElementPrivate.cpp:1084-1095 | the walk ends at the NULL element of the report that was registered last and meets no other |
| `ElementReports.MidwalkNext` | IOHIDFamily/IOHIDElementContainer.cpp:773-785 | one turn of the walk, of a plain element or of a whole array, keeps what the turns before have done |
| `ElementReports.CreateElement` | IOHIDFamily/IOHIDElementPrivate.cpp:1249-1363 | a pending element that is no array clears the report if it keeps the size, writes its field if there is room, and becomes idle |
| `ElementReports.CreateReport` | IOHIDFamily/IOHIDElementContainer.cpp:732-756 | every field of the report holds its element's value, whatever the order of the chain, every other bit is zero, and the elements are idle |
| `ElementReports.ComposedNext` | IOHIDFamily/IOHIDElementPrivate.cpp:1344-1356 | writing one more disjoint field keeps the fields written before |
| `ElementReports.ValueRestored` | IOHIDFamily/IOHIDElementPrivate.cpp:1175-1180 | a value that fits its width is read back from a report that holds it, signed or unsigned |
| `ElementReports.CanonicalSignedIff` | IOHIDFamily/IOHIDElementPrivate.cpp:964-979 | a word is the sign extension of its low n bits exactly when its signed value fits n bits |
| `ElementReports.TakenIffWholeBytes` | IOHIDFamily/IOHIDElementPrivate.cpp:1106-1115 | the report that createReport makes is long enough to be processed exactly when the report size is in whole bytes |
| `ElementReports.PlainIffFields` | IOHIDFamily/IOHIDElementContainer.cpp:163-242 | in the elements made of any descriptor, an output or feature report meets the conditions of the round trip on its layout exactly when the fields the descriptor gives it are no arrays, lie inside its whole bytes and are apart |
| `ElementReports.RoundTrip` | IOHIDFamily/IOHIDElementContainer.cpp:732-788 | createReport and then processReport, by another container or the same one, restore the value of every element of the report, but for a keyboard modifier that is passed over, and leave every other value alone |
| `ArrayReports.SetArrayElementValue` | IOHIDFamily/IOHIDElementPrivate.cpp:1626-1658 | an item in range is set in the buffer, and enqueued, unless it already has the time of the handler; no other value changes |
| `ArrayReports.SetMissing` | IOHIDFamily/IOHIDElementPrivate.cpp:1701-1744 | a comparing loop sets and enqueues, once each, exactly the items whose selector is in one list and not in the other |
| `ArrayReports.Compare` | IOHIDFamily/IOHIDElementPrivate.cpp:1701-1751 | the difference of the old and the new list is switched in the buffer and the new list is saved |
| `ArrayReports.ReadSlots` | IOHIDFamily/IOHIDElementPrivate.cpp:1674-1687 | each duplicate reads its slot of the report; whether any of them changed, and whether all hold ErrorRollOver |
| `ArrayReports.ProcessArrayReport` | IOHIDFamily/IOHIDElementPrivate.cpp:1660-1754 | the duplicates are read; without a change nothing else happens; the roll-over item is set, and a list of anything but ErrorRollOver is compared and saved |
| `ArraysInForce.ReadArray` | IOHIDFamily/IOHIDElementPrivate.cpp:1160-1236 | the turn of a handler: its own value is read, with its array processed in between exactly if it moved |
| `ArraysInForce.ReadKeepsCurrent` | IOHIDFamily/IOHIDElementPrivate.cpp:1626-1754 | one report, later than all before: each duplicate holds its slot, the items with a nonzero selector are on exactly when it is in the last accepted list, the items enqueued are the symmetric difference, each once, they and no others have the time of the report and a generation higher by two, and the roll-over item says whether all slots hold ErrorRollOver |
| `ArraysInForce.SlotsAfterRead` | IOHIDFamily/IOHIDElementPrivate.cpp:1164-1196 | when the handler finds its field unchanged and skips its array, the duplicates hold their slots of the new report all the same |
| `ArraysInForce.FreshInjective` | IOHIDFamily/IOHIDElementPrivate.cpp:912-993 | the words read tell the field, so an unchanged value means an unchanged field |
| `ArrayReports.BothLoops` | IOHIDFamily/IOHIDElementPrivate.cpp:1701-1744 | the two loops together switch exactly the symmetric difference, each item once |
| `ArrayReports.Switched` | IOHIDFamily/IOHIDElementPrivate.cpp:1689-1751 | an accepted list comes into force, with the roll-over item handled before it |
| `AsyncCalls.IOHIDDevice.SetNextAsyncTimeout` | IOHIDFamily/IOHIDDevice.cpp:2106-2149 | the scan with its calls back into itself equals one exact scan and arming of the timer |
| `AsyncCalls.IOHIDDevice.CompleteAsyncReport` | IOHIDFamily/IOHIDDevice.cpp:2200-2216 | a listed call is removed and completed, an unlisted one ignored |
| `AsyncCalls.IOHIDDevice.CommitComplete` | IOHIDFamily/IOHIDDevice.cpp:2734-2794 | a listed call is removed and counted, the last one fires the completion, an unlisted one is ignored |
| `AsyncCalls.IOHIDDevice.OutReport` | IOHIDFamily/IOHIDDevice.cpp:2218-2248 | a submission is rejected or appended with its deadline, with the timer set and the worker woken |
| `AsyncCalls.IOHIDDevice.RunSyncReportAsync` | IOHIDFamily/IOHIDDevice.cpp:2163-2197 | the worker's region: aborts everything of an inactive device, hands out the first call, or retires and finishes a deferred termination |
| `AsyncCalls.IOHIDDevice.WillTerminate` | IOHIDFamily/IOHIDDevice.cpp:796-821 | both lists are aborted and emptied |
| `AsyncCalls.IOHIDDevice.DidTerminate` | IOHIDFamily/IOHIDDevice.cpp:823-846 | termination is deferred exactly while the worker is active |
| `AsyncCalls.IOHIDDevice.Begin` | IOHIDFamily/IOHIDDevice.cpp:2592-2656 | a commit starts with its extra expected completion and its first listed call |
| `AsyncCalls.IOHIDDevice.SubmitReturned` | IOHIDFamily/IOHIDDevice.cpp:2679-2709 | what follows the return of one submission: the next call, a failure counted, or the end of the loop |
| `AsyncReports.ScanIsExact` | IOHIDFamily/IOHIDDevice.cpp:2124-2135 | a scan completes a listed call exactly when the time read for it is not before its deadline |
| `AsyncReports.CompleteReportConserves` | IOHIDFamily/IOHIDDevice.cpp:2200-2216 | completing a call moves it from the list to the log, once, and keeps every other |
| `AsyncOutcomes.CompletionStatus` | IOHIDFamily/IOHIDDevice.cpp:2119-2216 | in every run, the one completion of a report call carries what ended it: the status the transport returned to the worker for it, Aborted if termination or the worker of an inactive device took it off the list, Timeout if a scan did, in whatever step |
| `AsyncOutcomes.EndedBySome` | IOHIDFamily/IOHIDDevice.cpp:2119-2216 | every completion is invoked in one step of the run |
| `AsyncOutcomes.DeadlineAskedFor` | IOHIDFamily/IOHIDDevice.cpp:2231-2232 | a timeout of 50 to 1200000 milliseconds is added to the time of the request as it is, any other is replaced by the device's own |
| `AsyncOutcomes.AcceptedCall` | IOHIDFamily/IOHIDDevice.cpp:2231-2243 | an accepted call is listed with the deadline it asked for, or ends with Timeout if that has passed |
| `AsyncOutcomes.OverdueCallEnds` | IOHIDFamily/IOHIDDevice.cpp:2106-2149 | in every run, a call is off the list once the timer fires at its deadline or later, and ends with Timeout if it was still listed |
| `AsyncProtocol.ReportsCompleteOnce` | IOHIDFamily/IOHIDDevice.cpp:2151-2248 | in every run each accepted call is listed or completed, exactly once; rejected calls never are; when the worker has retired all are completed |
| `AsyncProtocol.WorkerKeepsOrder` | IOHIDFamily/IOHIDDevice.cpp:2151-2184 | the worker starts calls in the order of submission, none twice |
| `AsyncProtocol.TeardownIsDeferred` | IOHIDFamily/IOHIDDevice.cpp:823-846 | a listed call or a call in the worker's hands implies the active flag and no teardown; teardown happens at most once |
| `AsyncProtocol.WorkerFinishes` | IOHIDFamily/IOHIDDevice.cpp:2163-2197 | from every state the worker alone drains the list and retires |
| `AsyncProtocol.DeferredTeardownHappens` | IOHIDFamily/IOHIDDevice.cpp:2186-2195 | a termination that was deferred is finished by the worker |
| `AsyncCommits.CommitScanIsExact` | IOHIDFamily/IOHIDDevice.cpp:2137-2146 | a scan ends exactly the expired commit calls, although each goes through CommitComplete |
| `AsyncCommits.SetNextArms` | IOHIDFamily/IOHIDDevice.cpp:2106-2149 | after a scan of an active device the timer is armed no later than any deadline |
| `AsyncCommits.TimerIsADeadline` | IOHIDFamily/IOHIDDevice.cpp:2106-2149 | and no earlier than needed: it is off or armed for the deadline of a call that is still listed |
| `AsyncCommits.LastFailureIs` | IOHIDFamily/IOHIDDevice.cpp:2777 | the last status that is no success: all behind it are, and without one all are |
| `CommitProtocol.TimerNeverOversleeps` | IOHIDFamily/IOHIDDevice.cpp:2106-2149 | in every reachable state with the lock free and the device active the timer is armed no later than any pending deadline |
| `CommitProtocol.CommitFiresOnceIff` | IOHIDFamily/IOHIDDevice.cpp:2577-2794 | in every run a commit's completion fires exactly once, after its loop is over and its last call has left the list, if and only if no call of it is removed to an empty list during its submission, and a call of it is still listed whenever a failed submission is counted |
| `CommitProtocol.SuccessMeansSuccess` | IOHIDFamily/IOHIDDevice.cpp:2777-2783 | success is reported only if every counted status, and the noticed end of the loop, was success |
| `CommitProtocol.OutcomeIsLastFailure` | IOHIDFamily/IOHIDDevice.cpp:2777-2783 | what a commit's completion is given is the last status counted that is no success, and success when there is none |
| `AsyncOutcomes.StepGains` | IOHIDFamily/IOHIDDevice.cpp:2577-2794 | the statuses counted for a commit, step by step: Timeout for each of its calls that has expired, and then the status the transport reports for one of them, Aborted for each at termination, or what its submitter ends with |
| `AsyncOutcomes.BeginGains` | IOHIDFamily/IOHIDDevice.cpp:2592-2709 | a commit starts without statuses, and one that makes no report is told NotFound at once |
| `AsyncOutcomes.OverdueCommitEnds` | IOHIDFamily/IOHIDDevice.cpp:2137-2146 | in every run, no call of a commit is left once the timer fires at the deadline it asked for or later |
| `CommitProtocol.TerminationClearsCommits` | IOHIDFamily/IOHIDDevice.cpp:804-814 | termination leaves no outstanding call |
| `CommitProtocol.EarlyTerminationFiresTwice` | IOHIDFamily/IOHIDDevice.cpp:2655-2670 | a concrete run in which termination between the listing and the counting of a call fires the completion twice |
| `ActionQueue.IOHIDActionQueue.EnqueueIOHIDAction` | IOHIDFamily/IOHIDActionQueue.cpp:143-155 | the action is appended, and the interrupt raised exactly if the queue was empty |
| `ActionQueue.IOHIDActionQueue.DequeueIOHIDAction` | IOHIDFamily/IOHIDActionQueue.cpp:157-172 | the first action is removed and returned, if there is one |
| `ActionQueue.IOHIDActionQueue.HandleIOHIDAction` | IOHIDFamily/IOHIDActionQueue.cpp:174-182 | undisturbed, the handler runs every queued action once, in order, leaves the queue empty, and calls the cancel handler once for each cancel block |
| `ActionQueue.IOHIDActionQueue.Cancel` | IOHIDFamily/IOHIDActionQueue.cpp:217-240 | the first cancel enqueues the cancel block, later ones do nothing |
| `ActionQueue.EveryRunKeepsInv` | IOHIDFamily/IOHIDActionQueue.cpp:143-182 | in every interleaving a nonempty queue has a raised interrupt, a producer about to raise it, or a running handler; and what was enqueued is what ran, what is in hand and what is queued, in order |
| `ActionQueue.NoLostWakeup` | IOHIDFamily/IOHIDActionQueue.cpp:143-182 | when every thread rests and no interrupt is raised, everything enqueued has run |
| `ActionQueue.RunsInOrder` | IOHIDFamily/IOHIDActionQueue.cpp:143-182 | actions run in queue order, none lost or repeated, each producer's in its own order |
| `ActionQueue.CancelLast` | IOHIDFamily/IOHIDActionQueue.cpp:217-240 | the cancel handler runs at most once, after everything enqueued before it |
| `ActionQueue.AttachedIff` | IOHIDFamily/IOHIDActionQueue.cpp:207-232 | in every run the handler is attached exactly if the queue has been activated, before or after cancelling, and no cancel block has run |
| `ActionQueue.EverythingGetsRun` | IOHIDFamily/IOHIDActionQueue.cpp:174-215 | from every reachable state of a queue that has been activated and whose cancel block has not run the handler alone can finish all work |
| `EventSerialization.ReadBytes` | IOHIDFamily/IOHIDEvent.cpp:1808-1858 | the bytes written are the records of the kept tree in pre-order, the size is the length of the kept tree, the count goes up by its events, and nothing outside the given room changes |
| `EventSerialization.KeepsAllIffRoom` | IOHIDFamily/IOHIDEvent.cpp:1653-1674 | the whole tree is kept exactly when there is room for getLength |
| `EventSerialization.PruneIsPruning` | IOHIDFamily/IOHIDEvent.cpp:1815-1849 | what is kept is closed under parents and in order, fits the room, and is empty only if the root does not fit |
| `EventSerialization.KeptOneByOne` | IOHIDFamily/IOHIDEvent.cpp:1838-1849 | children are kept in order, and one is left out exactly if its own record does not fit behind those kept before it; the next ones are tried all the same |
| `EventSerialization.CountOfEveryRecord` | IOHIDFamily/IOHIDEvent.cpp:1851-1855 | each record's event count is its event's place in post-order, the root's the number of all |
| `EventSerialization.EncodedLength` | IOHIDFamily/IOHIDEvent.cpp:1653-1674 | the records of a tree take exactly getLength bytes |
| `EventSerialization.DepthOfEveryRecord` | IOHIDFamily/IOHIDEvent.cpp:1829-1833 | each record carries its distance from the root, modulo 256 |
| `EventSerialization.WithBytes` | IOHIDFamily/IOHIDEvent.cpp:1679-1786 | the parsing loop equals a scan of the buffer, with every early end and 32-bit overflow |
| `EventParsing.EarlyEnd` | IOHIDFamily/IOHIDEvent.cpp:1696-1783 | any buffer: its first records, up to the number the first one announces or to the first place that holds none (the header does not fit, the type is unknown, the size too small, the data runs past the end), are read into the first with the others as its children; without a record there is no event |
| `EventParsing.OverrunDecides` | IOHIDFamily/IOHIDEvent.cpp:1753-1760 | where the size check overlooks that the data runs past the end, the outcome depends on what lies there |
| `EventParsing.AttributesSkipped` | IOHIDFamily/IOHIDEvent.cpp:1702-1760 | a record with attributes yields its data without them, exactly if there is room for the attributes once more behind the data, or they are longer than all that follows them |
| `EventSerialization.RecordRead` | IOHIDFamily/IOHIDEvent.cpp:1696-1767 | a record passes every check and is read back whole, whatever follows it |
| `EventSerialization.TreeRead` | IOHIDFamily/IOHIDEvent.cpp:1679-1786 | the records of a tree are parsed into the root with all descendants in pre-order as its children |
| `EventSerialization.KeptEventsRead` | IOHIDFamily/IOHIDEvent.cpp:1808-1858 | under any length limit that fits the root, parsing recovers exactly the kept events, whatever else the buffer holds |
| `EventSerialization.SameTreeIffFlat` | IOHIDFamily/IOHIDEvent.cpp:1679-1858 | with enough room the same tree comes back exactly when no child has children |
| `EventSerialization.WriteThenRead` | IOHIDFamily/IOHIDEvent.cpp:1679-1858 | readBytes into a buffer of any length that fits the root, then withBytes: the root returns with the kept events as its children, and with enough room as the same tree exactly when it is flat |
| `EventSerialization.AppendKeepsValid` | IOHIDFamily/IOHIDEvent.cpp:1526-1538 | appendChild keeps events well-formed, with the collection option set |
| `EventSerialization.FirstChildMarks` | IOHIDFamily/IOHIDEvent.cpp:1526-1538 | the first child sets the collection bit in its parent's options and changes no other bit and no other byte |
| `ScrollAcceleration.IOHIDScrollAccelerator.Remember` | IOHIDEventSystemPlugIns/IOHIDAcceleration.cpp:44-59 | the ring buffer from tail to head holds exactly the newest min(8, streak) events, where a streak ends at a turn or a gap over 500 ms |
| `ScrollAcceleration.HoldsNext` | IOHIDEventSystemPlugIns/IOHIDAcceleration.cpp:44-59 | writing the head slot and moving head and tail keeps the window the newest events in order |
| `ScrollAcceleration.StreakIs` | IOHIDEventSystemPlugIns/IOHIDAcceleration.cpp:55-59 | within a streak no event turns or follows a long gap, and its first event does |
| `ScrollAcceleration.IOHIDScrollAccelerator.Average` | IOHIDEventSystemPlugIns/IOHIDAcceleration.cpp:61-79 | the loop ends, counts one to eight events, stops at the first pause, the first 500 ms or the tail, and its time sum stays below 650 ms |
| `ScrollAcceleration.StopsAtOnce` | IOHIDEventSystemPlugIns/IOHIDAcceleration.cpp:66-79 | the place where averaging stops is unique |
| `ScrollAcceleration.TimeBound` | IOHIDEventSystemPlugIns/IOHIDAcceleration.cpp:66-79 | the capped times before the stop sum to less than both thresholds together |
| `ScrollAcceleration.IOHIDScrollAccelerator.Accelerate` | IOHIDEventSystemPlugIns/IOHIDAcceleration.cpp:35-99 | the velocity is a function of the history of events alone |
| `ScrollAcceleration.VelocityMonotone` | IOHIDEventSystemPlugIns/IOHIDAcceleration.cpp:85-99 | over the same number of events, less time or more scroll never gives a lower velocity |
| `ScrollAcceleration.SteadyVelocity` | IOHIDEventSystemPlugIns/IOHIDAcceleration.cpp:85-99 | the velocity of a steady run of equal events, in numbers: a parabola in the capped time between them, in frames, times the scroll in a frame |
| `ParametricAcceleration.TangentTouches` | IOHIDEventSystemPlugIns/IOHIDAccelerationAlgorithm.cpp:172-183 | m[0] is the slope of the first piece: the line meets it twice at the tangent speed |
| `ParametricAcceleration.TangentBelow` | IOHIDEventSystemPlugIns/IOHIDAccelerationAlgorithm.cpp:172-183 | with nonnegative gains the line lies below the first piece |
| `ParametricAcceleration.JointsAgree` | IOHIDEventSystemPlugIns/IOHIDAccelerationAlgorithm.cpp:172-192 | the three pieces agree where they meet |
| `ParametricAcceleration.RootTouches` | IOHIDEventSystemPlugIns/IOHIDAccelerationAlgorithm.cpp:187-192 | the line of the second piece touches the square root twice where they meet |
| `ParametricAcceleration.GainsScaleSpeed` | IOHIDEventSystemPlugIns/IOHIDAccelerationAlgorithm.cpp:216-220 | gains are factors of the speed and go into the power with it |
| `ParametricAcceleration.TailBelowLine` | IOHIDEventSystemPlugIns/IOHIDAccelerationAlgorithm.cpp:187-192 | the square-root piece never rises above the extended line |
| `ParametricAcceleration.Nondecreasing` | IOHIDEventSystemPlugIns/IOHIDAccelerationAlgorithm.cpp:211-256 | the curve is nondecreasing, with any of its pieces missing |
| `ParametricAcceleration.RisesIffOrdered` | IOHIDEventSystemPlugIns/IOHIDAccelerationAlgorithm.cpp:167-256 | a curve with nonnegative gains has a value at every speed and never falls if and only if its tangent speeds, when both are given, are in order |
| `ParametricAcceleration.DefinedIff` | IOHIDEventSystemPlugIns/IOHIDAccelerationAlgorithm.cpp:243-244 | no root of a negative number is taken at any speed, exactly when the speeds are in order or the tangent is not below zero where the root should have begun |
| `ParametricAcceleration.UndefinedIff` | IOHIDEventSystemPlugIns/IOHIDAccelerationAlgorithm.cpp:172-192 | with the tangent speeds the other way round there is no value beyond the first piece, at any speed, exactly when the tangent falls below zero |
| `ParametricAcceleration.Drops` | IOHIDEventSystemPlugIns/IOHIDAccelerationAlgorithm.cpp:172-192 | and otherwise some value beyond the first piece is strictly below the value at its end |
| `ParametricAcceleration.AloneTailBelowTangentIff` | IOHIDEventSystemPlugIns/IOHIDAccelerationAlgorithm.cpp:193-205 | without a linear piece the root stays below the tangent exactly when the slope is zero or the height at least one half |
| `ParametricAcceleration.BlendsOrderedIff` | IOHIDEventSystemPlugIns/IOHIDAccelerationAlgorithm.cpp:154-162 | two ordered curves blend into an ordered curve at every ratio if and only if both lack the line, or both lack the root, or in both the line speed is at most the root speed |
| `ParametricAcceleration.BlendIsStraight` | IOHIDEventSystemPlugIns/IOHIDAccelerationAlgorithm.cpp:154-162 | a blend leads from one curve to the other in a straight line, in every parameter |
| `ParametricAcceleration.RisesAtEveryAccelerationIff` | IOHIDEventSystemPlugIns/IOHIDAccelerationAlgorithm.cpp:111-256 | for a list of plausible curves at increasing accelerations, the curve chosen for every acceleration has values everywhere and never falls if and only if every curve is ordered and neighbours are compatible |
| `ParametricAcceleration.CreateWithParameters` | IOHIDEventSystemPlugIns/IOHIDAccelerationAlgorithm.cpp:111-209 | the chosen curve is the last one at or below the acceleration, blended with the next so that it lies exactly at the acceleration; ordered if the listed curves are ordered and compatible |
| `ParametricAcceleration.MultiplierNondecreasing` | IOHIDEventSystemPlugIns/IOHIDAccelerationAlgorithm.cpp:211-256 | with both scalings, at any acceleration between ordered, compatible curves, a faster movement never gets a smaller result |
| `ParametricAcceleration.StandardisedScales` | IOHIDEventSystemPlugIns/IOHIDAccelerationAlgorithm.cpp:213-214 | k times the resolution makes a movement count for one k-th, k times the rate for k times as much |
| `ParametricAcceleration.MultiplierInUnits` | IOHIDEventSystemPlugIns/IOHIDAccelerationAlgorithm.cpp:211-256 | in numbers: 96 for every 67 of the curve's height at value times rate over resolution |
| `TableAcceleration.InterpolateFunction` | IOHIDEventSystemPlugIns/IOHIDAccelerationAlgorithm.cpp:309-325 | each point of one curve is inserted at its height mixed with the whole other curve at that speed, beyond its last point included |
| `TableAcceleration.MergedPointsAre` | IOHIDEventSystemPlugIns/IOHIDAccelerationAlgorithm.cpp:379-384 | the merged set has a point at every speed of either curve and no other, at the mixed height |
| `TableAcceleration.MixUpIff` | IOHIDEventSystemPlugIns/IOHIDAccelerationAlgorithm.cpp:279-289 | the mixed height is the combination by the ratio exactly when low is not above high or the ratio is one half |
| `TableAcceleration.MergeExactIff` | IOHIDEventSystemPlugIns/IOHIDAccelerationAlgorithm.cpp:279-325 | the merged curve is the convex combination of both curves at every speed, past the last point too, if and only if low is nowhere above high at a point of either, or the ratio is one half |
| `TableAcceleration.Choose` | IOHIDEventSystemPlugIns/IOHIDAccelerationAlgorithm.cpp:351-372 | one curve for an acceleration of its own or outside the table, otherwise the two neighbours around it |
| `TableAcceleration.SuitsOnce` | IOHIDEventSystemPlugIns/IOHIDAccelerationAlgorithm.cpp:351-372 | the choice of curves is determined by the acceleration |
| `TableAcceleration.RatioMixes` | IOHIDEventSystemPlugIns/IOHIDAccelerationAlgorithm.cpp:381 | the ratio of two neighbours mixes their accelerations to the one asked for |
| `TableAcceleration.SingleCurveWanted` | IOHIDEventSystemPlugIns/IOHIDAccelerationAlgorithm.cpp:373-378 | at the acceleration of an entry its own curve is used; otherwise its heights are scaled as the accelerations plus one |
| `TableAcceleration.IOHIDTableAcceleration.AddSegments` | IOHIDEventSystemPlugIns/IOHIDAccelerationAlgorithm.cpp:386-399 | the segment table is that of the scaled points |
| `TableAcceleration.IOHIDTableAcceleration.Multiplier` | IOHIDEventSystemPlugIns/IOHIDAccelerationAlgorithm.cpp:539-551 | the first segment that ends at or beyond the value is used, else the last |
| `TableAcceleration.SearchIsEval` | IOHIDEventSystemPlugIns/IOHIDAccelerationAlgorithm.cpp:386-399 | the segment table computes the scaled curve at every speed |
| `TableAcceleration.EvalIsStraight` | IOHIDEventSystemPlugIns/IOHIDAccelerationAlgorithm.cpp:386-399 | that curve goes straight from point to point, through both, and straight on beyond the last |
| `TableAcceleration.MultiplierInUnits` | IOHIDEventSystemPlugIns/IOHIDAccelerationAlgorithm.cpp:386-399 | in numbers: 96 for every 67 of its height at value times rate over resolution |
| `TableAcceleration.CreateWithTable` | IOHIDEventSystemPlugIns/IOHIDAccelerationAlgorithm.cpp:327-401 | null for an unknown signature, otherwise the segments of the curve for the acceleration |
| `TableAcceleration.TableExactIff` | IOHIDEventSystemPlugIns/IOHIDAccelerationAlgorithm.cpp:327-401 | the object gives the cursor scale times the wanted curve at every speed from zero on, always for one curve and for two exactly under the condition of the merge |
| `AccelerationTable.EntryOffset` | IOHIDEventSystemPlugIns/IOHIDAccelerationTable.cpp:89-95 | the walk skips the lengths of the entries before |
| `AccelerationTable.EntryRead` | IOHIDEventSystemPlugIns/IOHIDAccelerationTable.cpp:15-58 | acceleration, count and points of an encoded entry are read back, and its length is its own |
| `AccelerationTable.EntryIs` | IOHIDEventSystemPlugIns/IOHIDAccelerationTable.cpp:15-58 | which bytes of an entry are its acceleration, the number of its points, and the speed and height of each, highest byte first and in 65536ths |
| `AccelerationTable.SignatureIs` | IOHIDEventSystemPlugIns/IOHIDAccelerationTable.cpp:85-87 | the signature is bytes 4 to 7, lowest first |
| `AccelerationTable.WalkArrives` | IOHIDEventSystemPlugIns/IOHIDAccelerationTable.cpp:89-95 | over entries of any lengths the walk arrives at the entry with that index |
| `AccelerationTable.AsCurveIncreasing` | IOHIDEventSystemPlugIns/IOHIDAccelerationTable.cpp:48-53 | fixed-point points of rising speed become points of rising speed |
| `AccelerationTable.CreateWithTable` | IOHIDEventSystemPlugIns/IOHIDAccelerationAlgorithm.cpp:327-401 | from the bytes of any table of rising curves: null for an unknown signature, otherwise an object that is exact at every speed under exactly the condition of the merge |

## Left out

- Allocation failure, retain counts, logging, tracing, statistics, property dictionaries and event queues.
- Big-endian hosts, floating-point rounding, and division by a zero rate or resolution.
- The report descriptor parser is not part of this model: its lists are input, with the assumption that it lists the usages of an array together, one entry per report ID, and no array items as values.
- 32-bit overflow of bit positions and of the value capacity: `_reportBits * _reportCount` and start bits are unbounded numbers; there are at most 2^32 elements.
- Elements are values in a list and are known by their cookies; an element that is changed in place is replaced in the list, and aliasing between pointers is not modelled.
- ElementReports.CreateReport: does not model createArrayReport nor setOutOfBoundsValue, so reports are made from pending elements that are no arrays.
- AsyncCalls.IOHIDDevice.CommitComplete: does not model the handling of the completed report nor the element data copied back.
- ElementReports.ProcessElement: does not model the calls to event queues (what array items enqueue is returned), nor the transaction state beyond pending and idle.
- Which reports a commit issues (cookies and the report map), the synchronous path of runElementValues, and the element data copied back to the caller.
- Addresses of calls are unique numbers that are never reused, and completion callbacks do not submit again.
- isInactive is read once in each region between lock and unlock, and TARGET_OS_BRIDGE, where willTerminate does not lock, is not modelled.
- The context of a commit stays readable after its completion has fired, so that a second firing can be stated; in the code it has been freed.
- dispatchSync and setCancelHandler of the action queue.
- EventSerialization.WithBytes: when the data to copy is not contained in the buffer the outcome is called undetermined, because it does not depend on the buffer alone.
- Events are values: readBytes writing the depth into the events themselves is modelled by the records only, and createBytes and the event constructors are left out.
- The sizes of the event types, their number and the collection option come from a header that is not part of this model; they are a parameter.
- The last lines of the scroll accelerator (the call of the acceleration algorithm and the scaling of the caller's value) and pointer acceleration.
- ParametricAcceleration.CreateWithParameters: takes lists of valid curves only.
- CreateOriginalWithTable, which has no caller.
- getScaledValue, calibration, open and close seizing, matching tables, usage pairs and keymap tables.
- The scale of an acceleration table, which nothing but its printing reads, and tables without entries.
