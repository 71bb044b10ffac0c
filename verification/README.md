# Verification of tpm2-tcti-uefi

A Dafny 4.11 model of the parts of this repository that walk the firmware's
event log, dump the PCRs of a TPM, and drive the TPM through the UEFI TCG2
protocol, with proofs of what they do over whole runs. Check it with
`dafny verify dfyconfig.toml`.

## What is modelled

**Event logs.** `RawMemory` is byte memory with little-endian reads; nothing is
assumed of its contents. `EventLog` has the two walks of `example/util.c`, over
the digests of an event and over the events of a log, with positions computed
both ways the code computes them: by stepping digest pointers and by adding up
sizes. `EventCodec` writes down the layout of `src/tcg2-protocol.h:89-113` as a
serialiser and proves it and the walk inverse to each other, in both directions.
`HeaderResync` follows the walk over the SHA1-format entry that starts a crypto-agile
log, `Tpm12Log` is the log of that older format, and `EventLogFormat` the choice
between the two. `EventLog64`, `EndlessLog` and `Tpm12Log64` are the walks in wrapping
64-bit arithmetic, with exact conditions for that to make no difference.

**PCR dump.** `PcrBits` and `BankBitmap` are the bit operations, with sets as
their meaning; `PcrSelection` is the selection list in memory and the walk over
its set bits; `PcrDump` is the callback that pairs set bits with digests and
strikes them off the next request; `PcrDumpRun` is the run of reads as a function
and `PcrDumpLoop` the loop that makes it, with the results about whole dumps in its
contract; `PcrDumpProperties` and `PcrDumpOutput` prove them. The TPM is a parameter.
It is held to the contract of TPM2_PCR_Read (TPM 2.0 Library, Part 3, section 22.4),
in `PcrRead.Conforms`: a read may fail, or else brings a prefix of what is selected
and implemented, in list order and then by ascending PCR, not empty while anything
is left. How long each prefix is, and what the PCRs hold at each read, is arbitrary.
`ReferenceTpm` shows that such TPMs exist. `PcrDumpEnding` drops the contract and says
for any TPM whatever when the loop ends.

**TCTI.** `TctiModel` is the transmit/receive/finalize protocol as a state machine,
`TctiContext` the context object with its buffer, its size query and its
initialisation, and `TctiProperties` what every run keeps for arbitrary firmware
statuses. A context records its calls and what it handed to the firmware in ghost
fields, and its validity says that they are a run of the state machine.

## Conventions

- A C callback's `void *data` is passed in and out as a value. So
  `foreach_selection` appears twice: for every such callback in `PcrSelection`, and
  in `PcrDump` with the one callback that updates its data in place.
- A `for` or `do` loop of the source is a loop of a method, proved against a
  function of the inputs; lemmas then state what that function guarantees.
- `TPML_PCR_SELECTION` is three parallel arrays with the list's fixed capacity; a
  pointer to one entry's bitmap is an array and an offset.
- Constants of the tss2 headers are named: 16 selections of 4 bytes in a list, 32
  PCRs in a selection, 8 digests in a reply, and the algorithm identifiers and
  digest sizes of the TCG Algorithm Registry.
- Addresses are natural numbers. In 64-bit arithmetic the walk over events makes the
  same visits if and only if the step from the final one ends it
  (`EventLog64.WalkAgreesIffItStops`), which is when no visited event ends beyond the
  address space (`EventLog64.WalkAgreesIffItFits`). For a given last address it does so
  in every memory, and ends in every memory, if and only if there are at least
  `MAX_EVENT_SPAN` bytes, about 288 GB, from there to the top (`EndlessLog.RoomIsExact`);
  `EndlessLog.SecondVisit` is a log of 48 bytes for which it does not, and
  `EndlessLog.WalkNeverEnds` a walk without an end. `Tpm12Log64` has the same for the
  SHA1 format, where 4 GB of room are needed.
- A selection list is sent and received with three bytes a bitmap, as its
  `sizeofSelect` says. The fourth byte of a received bitmap is what memory held
  before; the dump loop keeps it zero in every round.

## Where the code and its documentation differ

- `example/util.c:151-158` promises the supported log format with the highest
  version. The code joins the bitmap and the format with `&&`, so any non-empty
  bitmap selects the TCG 2 format. `EventLogFormat.HighestExactlyWhen` says exactly
  when the promise is kept, `EventLogFormat.PromiseBroken` gives two bitmaps for
  which it is not.
- `example/util.c:129-130` gives an algorithm it does not know the size 0.
  `EventCodec.AlignedIffKnownSizes` and `EventCodec.ReadBackIffKnownSizes` say exactly
  when digests and logs are still read right; `EventCodec.UnknownAlgorithmMisaligns`
  and `EventCodec.UnknownAlgorithmMisread` are a digest and a log that are not.
- `src/tcti-uefi.c:224` subtracts the structure's size from the caller's without a
  check. `TctiContext.Context.Init` and `TctiContext.RemainderFitsIff` say exactly which
  sizes give a working context; `TctiContext.UndersizedInit` uses two that do not, 0
  and one byte less than the structure.
- `src/tcti-uefi.c:117-121` submits the whole buffer, cut to a 32-bit length, not the
  command's length. `TctiProperties.SubmittedBlocks` says of every submission of every
  run exactly when the block starts with the command and when it is the command.
  `TctiProperties.TruncatedSubmission` is a run, with a buffer of 4 GB, in which it does
  neither; `TctiContext.QueryAllocateInit` never makes so large a context.

## Model

| member | source | states |
|---|---|---|
| `Callbacks.EarlyStop` | example/util.c:390-409 | A walk hands over exactly the items up to and including the first rejected one, reports failure precisely when one was rejected, and leaves the data those items produced |
| `Callbacks.AlwaysAccepting` | example/util.c:354-359 | A callback that always returns true sees every item |
| `Callbacks.RecorderRecordsAll` | example/util.c:339-345 | The printing callback sees every event, in order |
| `RawMemory.ReadsBytes` | src/tcg2-protocol.h:89-113 | A 16- or 32-bit field is read least significant byte first |
| `EventLog.NextEvent` | example/util.c:375-389 | For any memory, the next event lies at least 16 bytes, two per digest and the event data further on |
| `EventLog.DigestAt` | example/util.c:181-185 | After n steps the digest pointer has moved between 2n and 66n bytes |
| `EventLog.SizesSumToDistance` | example/util.c:287-303 | The sizes added up over any digests, unknown algorithms included, are the distance the stepped pointer covers, for both accumulating callbacks |
| `EventLog.ForeachDigest2` | example/util.c:346-361 | The k-th digest handed to the callback is the one k steps from the first; all that the header counts are, or those up to and including the first the callback rejects, and that decides the result; without digests it returns true |
| `EventLog.DigestsFromAt` | example/util.c:353-358 | The walk goes from the first digest to the last, each found by one step from the one before |
| `EventLog.DigestStep` | example/util.c:115-132 | The digest pointer moves by 2 bytes if and only if the algorithm is none of the five known ones, and else by 22, 34, 50 or 66, as its digest size asks |
| `EventLog.UnknownDigests` | example/util.c:129-130 | Over n digests of unknown algorithms the pointer moves by 2n bytes |
| `EventLog.WithoutSize` | example/util.c:291-374 | Without a size to add to, the accumulating callback stops the walk at once and the printing one goes on |
| `EventLog.GetNextEvent` | example/util.c:375-389 | Adding up sizes arrives where stepping pointers does; never null; with n digests, all of unknown algorithms, that is 12 + 2n + 4 bytes and the event data past the header |
| `EventLog.PrettyprintEvent` | example/util.c:320-338 | The data it dumps lies where get_next_event skips, and ends exactly at the next event |
| `EventLog.ForeachEvent2` | example/util.c:390-409 | Fails without a callback on null arguments; otherwise hands over the first events of the walk, up to last or the first rejection |
| `EventLog.PrettyprintEventlog` | example/tcg2-get-eventlog.c:70-85 | Prints exactly the events of the walk, in order, none for a null address |
| `EventLog.WalkStaysInRange` | example/util.c:401-404 | For any memory, the walk starts at first and visits nothing beyond last; it visits nothing only when first is beyond last |
| `EventLog.WalkIsSpaced` | example/util.c:375-409 | For any memory, visited addresses strictly increase by 16 at least |
| `EventLog.WalkIsShort` | example/util.c:375-409 | For any memory, there are at most (last - first)/16 + 1 callbacks |
| `EventLog.WalkIsContiguous` | example/util.c:401-404 | Each visit is where the event before it ends |
| `EventLog.WalkIsExhaustive` | example/util.c:401-404 | The walk ends only when the next event would start beyond last |
| `EventLog.AddressesFit` | example/util.c:364-389 | No pointer or size of the walk wraps in 64 bits when last is one event span below the top |
| `EventLog.SpanBounds` | example/util.c:364-389 | For any memory, an event's body lies inside it and it ends at most one event span after its start |
| `EventLog64.StepFits` | example/util.c:364-389 | A step that ends below the top of the address space is the same in wrapping 64-bit arithmetic, accumulated sizes included; one that ends at the top gives a null pointer |
| `EventLog64.StepWraps` | example/util.c:375-389 | A step of which only event data lies beyond the top ends where the unbounded one does, wrapped around |
| `EventLog64.NullEndsDigests` | example/util.c:352-358 | A digest that ends at the top of the address space ends the loop over digests; the sizes then add up to the distance to the top |
| `EventLog64.WalkAgreesIffItStops` | example/util.c:401-404 | For any memory and first not beyond last, the 64-bit walk makes exactly the visits of the unbounded one if and only if its step from the final one gives null or an address beyond last |
| `EventLog64.WalkAgreesIffItFits` | example/util.c:375-409 | With the fixed fields of the visited events below the top, it does so if and only if no visited event ends beyond the address space |
| `EventLog64.WalkFits` | example/util.c:390-409 | It does so whenever no visited event ends beyond the address space, in as many steps as there are events |
| `EventLog64.WalkWithRoomFits` | example/util.c:390-409 | It does so when last leaves room for one largest event |
| `EndlessLog.RoomIsExact` | example/util.c:375-409 | For every last: the 64-bit walk is the unbounded one for all memories and first events, and likewise ends for all, if and only if last leaves room for one largest event |
| `EndlessLog.WalkNeverEnds` | example/util.c:401-404 | For every last without that room, a memory for which the 64-bit walk makes any number of visits |
| `EndlessLog.SecondVisit` | example/util.c:375-404 | A log of one 48-byte event 32 bytes below the top, after which the 64-bit walk visits address 16 |
| `EventCodec.HoldsEventFields` | src/tcg2-protocol.h:97-113 | Where an event has its fields: PCR at 0, type at 4, digest count at 8, digests from 12 on, then the size of the data and the data |
| `EventCodec.DigestsRoundTrip` | src/tcg2-protocol.h:97-100 | Memory holds digests of known size exactly when the digest walk reads them back, and the walk ends just past them |
| `EventCodec.EventRoundTrip` | src/tcg2-protocol.h:97-113 | Memory holds an event exactly when the program reads it there, and the next event starts just past it |
| `EventCodec.ReadEventWellformed` | example/util.c:320-338 | Whatever memory holds, what is read as an event is a well-formed event |
| `EventCodec.ReadLogReadsEachVisit` | example/util.c:339-345 | The log read is the event at each visited address |
| `EventCodec.WalkVisitsOffsets` | example/util.c:390-409 | Over a serialised log the walk visits exactly the entries' addresses |
| `EventCodec.WalkInvertsSerialise` | example/util.c:346-409 | Over any non-empty serialised log with last at its final entry, the walk visits exactly the entries, in order, and reads the list back |
| `EventCodec.SerialiseInjective` | example/util.c:390-409 | Logs with equal bytes and equal last entry are the same list |
| `EventCodec.SerialiseInvertsWalk` | example/util.c:364-409 | For any memory, serialising what the walk read gives the memory walked over: no byte is skipped, shared or left out |
| `EventCodec.AlignedIffKnownSizes` | example/util.c:115-132 | The digest pointer is at every digest and at their end if and only if every digest has the size known for its algorithm |
| `EventCodec.ReadBackIffKnownSizes` | example/util.c:375-409 | Any log in memory is read back if and only if each of its digests has the size known for its algorithm |
| `EventCodec.StandardLogReadBack` | example/util.c:115-132 | Of logs whose digests have the lengths of the TCG Algorithm Registry, exactly those without a SHA3 digest are read back |
| `EventCodec.UnknownAlgorithmMisaligns` | example/util.c:129-130 | A digest of an unknown algorithm after which the walk is off |
| `EventCodec.UnknownAlgorithmMisread` | example/util.c:129-130 | A log with such a digest that is not read back |
| `HeaderResync.HeaderFields` | src/tcg2-protocol.h:89-95 | Which words of a SHA1-format header with a zero digest are zero |
| `HeaderResync.ShortestStep` | example/util.c:375-389 | A step of 16 bytes is made if and only if the two words at 8 and 12 are zero |
| `HeaderResync.HeaderIsTwoPseudoEvents` | example/util.c:375-389 | The header reads as two events without digests, at 0 and 16, and the walk then lands at 32 + EventSize |
| `HeaderResync.WalkResynchronises` | example/util.c:375-409 | With n >= 1 entries after the header there are n + 2 callbacks, at 0, 16 and the entries, which are read back |
| `HeaderResync.HeaderAlone` | example/util.c:401-404 | With the header alone there is one callback |
| `Tpm12Log.PrettyprintEventlog` | example/tcg2-get-eventlog.c:51-69 | Prints the entries of the walk, the first one whatever last is, and none for a null address |
| `Tpm12Log.VisitsStayInRange` | example/tcg2-get-eventlog.c:34-50 | For any memory, no visited entry lies beyond last |
| `Tpm12Log.VisitsAreBounded` | example/tcg2-get-eventlog.c:34-68 | For any memory, visits are 32 bytes apart at least and at most (last - first)/32 + 1 |
| `Tpm12Log.VisitsAreContiguous` | example/tcg2-get-eventlog.c:43 | Each visit is where the entry before it ends |
| `Tpm12Log.LastBeforeFirst` | example/tcg2-get-eventlog.c:44-47 | With last before first one entry is shown |
| `Tpm12Log.StopsAtLastOrOverruns` | example/tcg2-get-eventlog.c:40-47 | The loop stops at last if and only if last is visited, and otherwise at an entry that ends beyond last |
| `Tpm12Log64.WalkAgreesIffItStops` | example/tcg2-get-eventlog.c:34-68 | For any memory and any two addresses, the 64-bit loop makes exactly the visits of the unbounded one if and only if it gives null after the final one |
| `Tpm12Log64.WalkAgreesIffItFits` | example/tcg2-get-eventlog.c:43-47 | With first not beyond last, it does so if and only if no visited entry but last ends beyond the address space |
| `Tpm12Log64.RoomIsExact` | example/tcg2-get-eventlog.c:34-50 | For every last: it does so for all memories and all first not beyond last if and only if a largest entry one byte below last ends within the address space |
| `Tpm12Log64.ReturnsToOne` | example/tcg2-get-eventlog.c:43-47 | For every last without that room, a one-entry log after which the 64-bit loop visits address 1 |
| `Tpm12Log.HoldsPcrEventFields` | src/tcg2-protocol.h:89-95 | Where an entry has its fields: PCR at 0, type at 4, digest at 8, size at 28, data from 32 on |
| `Tpm12Log.PcrEventRoundTrip` | src/tcg2-protocol.h:89-95 | Memory holds an entry exactly when the program reads it there |
| `Tpm12Log.WalkVisitsOffsets` | example/tcg2-get-eventlog.c:66-68 | Over any non-empty serialised log the loop visits exactly the entries' addresses, once each, and stops at last |
| `Tpm12Log.WalkReadsEntries` | example/tcg2-get-eventlog.c:20-33 | What it shows at each address is the entry written there |
| `Tpm12Log.SerialiseInjective` | example/tcg2-get-eventlog.c:51-69 | Logs with equal bytes and equal last entry are the same list |
| `EventLogFormat.HighestExactlyWhen` | example/util.c:151-180 | The promise, an early return with the firmware's status on a failed query included, is kept if and only if the query fails or the TCG 2 format, or none, is supported |
| `EventLogFormat.FormatGiven` | example/util.c:167-180 | Any non-empty bitmap gives the TCG 2 format, an empty one none, and a failed query only its status |
| `EventLogFormat.PromiseBroken` | example/util.c:172-175 | Two bitmaps for which it is not |
| `PcrBits.SelectPcr` | example/util.c:192-197 | In place, the bitmap becomes the one with that PCR selected and no other byte changes |
| `PcrBits.DeselectPcr` | example/util.c:198-203 | In place, the bitmap becomes the one with that PCR deselected and no other byte changes |
| `PcrBits.SingleBit` | example/util.c:186-191 | In a bitmap with a single bit, bit i of byte k is PCR 8k + i and no other |
| `PcrBits.SelectInserts` | example/util.c:192-197 | Selecting is set insertion |
| `PcrBits.DeselectRemoves` | example/util.c:198-203 | Deselecting is set removal; every other PCR stays as it was |
| `PcrBits.MembersDetermineBits` | example/util.c:186-191 | The selected PCRs determine the bytes |
| `PcrBits.BitsRefineSets` | example/util.c:186-203 | Any run of selects and deselects leaves the set the same inserts and removals leave |
| `BankBitmap.CountAlgsInBitmap` | example/util.c:228-237 | The count is the cardinality of the set of one-bits |
| `BankBitmap.OneBitsArePowersOfTwo` | example/util.c:228-237 | The count is of the 32 powers of two that the bitmap contains |
| `BankBitmap.ActiveBanks` | example/util.c:248-272 | Which algorithm each of the five masks of the bitmap stands for, and that no other bit stands for any |
| `BankBitmap.KnownAlgsProperties` | example/util.c:248-272 | The known active algorithms are those of the set bits, in ascending bit order without repeats |
| `BankBitmap.KnownAlgsCount` | example/util.c:244-245 | They are no more than the entries made |
| `BankBitmap.ClearLowestBank` | example/util.c:248-252 | Striking off the lowest known bank drops the first known algorithm and keeps the others |
| `PcrSelection.PcrSelectionList.SelectAllActivePcrs` | example/util.c:238-274 | One entry per set bit, the leading ones naming the known active algorithms; three bytes all ones; further hashes, fourth bytes and further entries untouched |
| `PcrSelection.PcrSelectionList.NameBank` | example/util.c:248-272 | The chain of bank tests names an entry with the first known algorithm and strikes it off, or leaves both alone |
| `PcrSelection.PcrSelectionList.Deselect` | example/util.c:198-203 | Exactly one entry's bitmap loses exactly that PCR |
| `PcrSelection.SentIsAllIff` | example/tpm2-get-pcrs.c:78-84 | A list survives being sent with three bytes a bitmap if and only if its fourth bytes are zero |
| `PcrSelection.PcrSelectionList.Marshal` | example/tpm2-get-pcrs.c:78-84 | What is sent of each entry is its hash and as many bytes of its bitmap as its size says |
| `PcrSelection.PcrSelectionList.Store` | example/tpm2-get-pcrs.c:78-84 | A received list overwrites only the bytes that were sent |
| `PcrSelection.PcrSelectionList.StoreReply` | example/tpm2-get-pcrs.c:71-84 | With fourth bytes zero before, a received list selects just what was sent, and they stay zero |
| `PcrSelection.PcrSelectionList.ForeachSelection` | example/util.c:204-227 | For every list and stateful callback, the callback sees the set (hash, pcr) pairs in entry order and then ascending, up to the first rejection |
| `PcrSelection.PcrsFromAscend` | example/util.c:217-224 | Within an entry the pairs come in ascending order |
| `PcrSelection.PairsConcat` | example/util.c:215-225 | The entries come in their own order, each whole |
| `PcrSelection.PairsContains` | example/util.c:215-225 | A pair is visited exactly when some entry of its bank selects it |
| `PcrDump.CallbackData.SelectedDigest` | example/tpm2-get-pcrs.c:27-63 | Without data the walk is ended; otherwise, in place, one callback advances the digest index, prints complaint, heading and PCR as due, and strikes the PCR off every entry of its bank |
| `PcrDump.CallbackData.ForeachSelection` | example/util.c:204-227 | The walk with that callback does what feeding it the set pairs does |
| `PcrDumpProperties.DigestIndexCountsVisits` | example/tpm2-get-pcrs.c:41-62 | For any reply, digest_i on entry is the number of set bits visited, and max(1, count) bits are visited at most |
| `PcrDumpProperties.PairingIsExact` | example/tpm2-get-pcrs.c:41-62 | Every set bit meets a digest and every digest is used if and only if they are equally many |
| `PcrDumpRun.RoundShows` | example/tpm2-get-pcrs.c:27-63 | For any reply, a round shows the first max(1, count) set bits, each with the digest at its own position or an empty one past the count, and strikes off just those |
| `PcrDumpRun.RoundShowsAll` | example/tpm2-get-pcrs.c:90-92 | With as many set bits as digests, each set bit is shown with the digest at its own position and struck off |
| `PcrRead.PairsStrike` | example/tpm2-get-pcrs.c:52-57 | Striking a pair off a request removes exactly that pair |
| `PcrRead.WantedAfterStrikes` | example/tpm2-get-pcrs.c:52-57 | Striking off what a reply brought leaves exactly the rest wanted |
| `PcrRead.StrikeAllTopClear` | example/tpm2-get-pcrs.c:52-57 | Striking off keeps the fourth byte of every bitmap of the request zero |
| `ReferenceTpm.PairsStrikeAll` | example/tpm2-get-pcrs.c:52-57 | A round removes exactly the pairs it struck off |
| `ReferenceTpm.ContractIsMet` | example/tpm2-get-pcrs.c:78-84 | The assumed contract is met by some TPM for every set of PCRs, contents and reply size from 1 to 8 |
| `PcrDumpLoop.ShowReply` | example/tpm2-get-pcrs.c:78-92 | A round does what feeding the callback the pairs of the reply does, and leaves the reply list's fourth bytes zero |
| `PcrDumpLoop.PrettyprintPcrsAll` | example/tpm2-get-pcrs.c:65-96 | Terminates for every conforming TPM and bitmap of at most 16 bits. What a reader of its output sees is, in bank order and ascending, without repeats, implemented PCRs below 24 of active known banks only, each with its contents at one of the reads and each bank under one heading; all of them when it returns 0. The loop then makes at most one read more than PCRs and no fewer than full replies need; 3b + 1 with full replies and 24 PCRs in each of b known banks |
| `PcrDumpRun.FirstRequestOfOneBank` | example/util.c:243-272 | With a single active bank the request is one entry, naming SHA1, SHA256, SHA384, SHA512 or SM3_256 for the masks 1, 2, 4, 8 and 16, with three bytes of ones |
| `PcrDumpRun.FirstRequestProper` | example/tpm2-get-pcrs.c:74 | The first request asks for no implemented PCR twice, and in bank order |
| `PcrDumpProperties.FirstRequestWants` | example/tpm2-get-pcrs.c:74 | It wants exactly the implemented PCRs below 24 of the active known banks |
| `PcrDumpProperties.RunShowsWanted` | example/tpm2-get-pcrs.c:75-93 | Every run shows a prefix of what is wanted, a successful run all of it |
| `PcrDumpProperties.RunShowsContents` | example/tpm2-get-pcrs.c:41-50 | Each digest shown is the TPM's for that very pair in the read that returned it |
| `PcrDumpProperties.ExactlyOnce` | example/tpm2-get-pcrs.c:65-96 | For every bitmap of at most 16 bits and every conforming TPM, a successful run shows every implemented PCR below 24 of every active known bank exactly once, nothing else, in bank order and then ascending; a failed run a prefix |
| `PcrDumpProperties.ReadsAreBounded` | example/tpm2-get-pcrs.c:75-93 | At most one read more than PCRs, and no fewer than full replies need |
| `PcrDumpEnding.RoundStrikesShown` | example/tpm2-get-pcrs.c:41-63 | For any reply that lets the loop go on, a round strikes off the first of its pairs, as many as it has digests, and nothing else |
| `PcrDumpEnding.RoundShrinks` | example/tpm2-get-pcrs.c:52-57 | A round that shows no PCR still asked for leaves every byte of the request; any other asks for fewer PCRs afterwards |
| `PcrDumpEnding.ReadsAreFruitful` | example/tpm2-get-pcrs.c:75-93 | For any TPM, conforming or not, the loop makes at most one read more than PCRs asked for and reads that showed none of them |
| `PcrDumpEnding.EndsIffFewFruitless` | example/tpm2-get-pcrs.c:75-93 | For any TPM the loop ends if and only if the number of such reads is bounded |
| `PcrDumpEnding.MemorylessEndsIff` | example/tpm2-get-pcrs.c:75-93 | For a TPM whose answers depend on the request alone it ends if and only if there is no such read, and then after at most one read more than PCRs asked for |
| `PcrDumpEnding.StubbornNeverEnds` | example/tpm2-get-pcrs.c:75-93 | A TPM, outside the contract, for which the loop makes any number of reads |
| `PcrDumpEnding.ConformingReads` | example/tpm2-get-pcrs.c:75-93 | For a conforming TPM no read is of that kind, and the reads are those the loop's contract counts |
| `PcrDumpProperties.GenerousReads` | example/tpm2-get-pcrs.c:75-93 | With full replies to every read, exactly ceil(n/8) + 1 reads |
| `PcrDumpProperties.ThreeReadsPerBank` | example/tpm2-get-pcrs.c:75-93 | With all 24 PCRs in each of b known active banks, 3b + 1 reads |
| `PcrDumpOutput.OutputReadsBack` | example/tpm2-get-pcrs.c:42-50 | Attributing each PCR line to the heading above it gives back every pair and digest |
| `PcrDumpOutput.HeadingsCount` | example/tpm2-get-pcrs.c:45-48 | For visits in order, a bank gets one heading if it is shown and none otherwise |
| `PcrDumpOutput.HeadingPrecedesFirst` | example/tpm2-get-pcrs.c:45-50 | A heading stands immediately before its bank's first PCR |
| `PcrDumpOutput.BankHeadings` | example/tpm2-get-pcrs.c:65-96 | Over the whole multi-read run every bank shown gets its heading exactly once, immediately before its first PCR |
| `PcrDumpOutput.RunOutput` | example/tpm2-get-pcrs.c:65-96 | The output of every run is sound, and complete when the run succeeds |
| `PcrDumpOutput.ComplaintsPrecede` | example/tpm2-get-pcrs.c:41-50 | A PCR line has exactly one complaint before it, after the PCR line above, when its digest does not have the size of its bank, and none otherwise |
| `PcrDumpOutput.ComplaintsMeanWrongSize` | example/tpm2-get-pcrs.c:42-44 | The size complaint appears exactly when a digest does not have its algorithm's size |
| `TctiModel.Step` | src/tcti-uefi.c:49-160 | No call changes the capacity or the buffer's length |
| `TctiContext.Context.Transmit` | src/tcti-uefi.c:49-77 | For every argument, which of the five return codes is given, each by if-and-only-if over the magic, the version, the state and the sizes; an accepted command is copied to the start of the buffer, anything else changes nothing; the call joins the recorded run |
| `TctiContext.Context.CopyIn` | src/tcti-uefi.c:70-73 | The copy overlays the start of the buffer and leaves the rest |
| `TctiContext.Context.Receive` | src/tcti-uefi.c:83-143 | For every argument and firmware status, which return code is given, each by if-and-only-if; exactly when a waiting genuine context has a size, a response, the blocking timeout and a located protocol, one submission is made, with the block, the size given as the room for the response, both cut to 32 bits, and the firmware's status |
| `TctiContext.Context.FinalizeContext` | src/tcti-uefi.c:148-160 | Only the state changes, and only of a genuine context |
| `TctiContext.Context.Init` | src/tcti-uefi.c:187-227 | The size query succeeds if and only if neither status has its high bit set and the firmware reports a positive size, and then gives 88 bytes more than the larger one, else 0; initialisation gives a context that is valid if and only if the size covers the structure and not more than the block |
| `TctiContext.RemainderFitsIff` | src/tcti-uefi.c:224 | The capacity computed is one the block has if and only if the size covers the structure and does not exceed the block |
| `TctiContext.UndersizedInit` | src/tcti-uefi.c:224 | Two sizes that give a context that is not valid and reports nearly the whole address space as its capacity |
| `TctiContext.QueryAllocateInit` | example/tss2-util.c:19-43 | Query, allocation and Init give a context in TRANSMIT whose buffer is exactly the larger firmware size; it succeeds if and only if neither status has its high bit set, a size is positive and the allocation succeeds |
| `TctiContext.Context.Guarantees` | src/tcti-uefi.c:49-160 | History, trace grammar, answer counts, the block of each answer and the call behind each submission hold of every valid context's own run |
| `TctiProperties.CommandBufferHistory` | src/tcti-uefi.c:64-121 | In every run each buffer byte is that of the most recent accepted command long enough to have it, or its initial value, and so is every block handed to the firmware |
| `TctiProperties.SubmittedBlocks` | src/tcti-uefi.c:117-121 | In every run a submitted block starts with the latest accepted command if and only if that is no longer than the 32-bit size, and is that command if and only if it is as long |
| `TctiProperties.TruncatedSubmission` | src/tcti-uefi.c:117-121 | A run with a buffer of 4 GB in which the block is empty |
| `TctiProperties.TraceGrammar` | src/tcti-uefi.c:49-160 | In every run the actions are groups of one accepted command, failed submissions and at most one success, all of the same block; only the last may be unanswered, exactly in RECEIVE |
| `TctiProperties.EachCommandAnsweredOnce` | src/tcti-uefi.c:83-143 | The k-th successful submission carries the k-th accepted command; accepted minus answered is 1 in RECEIVE and 0 in TRANSMIT |
| `TctiProperties.SubmissionsMatchCalls` | src/tcti-uefi.c:92-121 | In every run the j-th submission has the output size, cut to 32 bits, and the status of the j-th receive call that reaches the firmware while a command waits, and there is no other submission |
| `TctiProperties.FinalIffFinalized` | src/tcti-uefi.c:148-160 | A context is in FINAL if and only if a finalisation is among its calls |
| `TctiProperties.FinalIsSilent` | src/tcti-uefi.c:148-160 | In FINAL nothing is accepted or submitted |
| `TctiProperties.FinalizeEndsRun` | src/tcti-uefi.c:148-160 | A run does nothing after its first finalisation |
| `TctiProperties.AcceptedExactlyWhen` | src/tcti-uefi.c:56-69 | After any run a command is accepted if and only if the state is TRANSMIT, it is not null, longer than 10 and at most the initial capacity; a refused one changes nothing |
| `TctiProperties.FailedReceiveRetries` | src/tcti-uefi.c:117-142 | After a failed submission the next receive hands over the same block and the same room for the response |

## Left out

- Text output, hex dumps, `eventtype_to_string`, `get_alg_name` and the printing of capabilities: only what is shown, and in which order, is modelled.
- Address wrap-around inside a single field: in the 64-bit walks pointers and sizes wrap, the bytes of one integer do not.
- Callbacks that alter the log or the selection list they are walked over.
- `EventCodec.WalkInvertsSerialise`: requires each digest to have the size known for its algorithm, because another one is misread; `EventCodec.AlignedIffKnownSizes` says when.
- `PcrSelection.PcrSelectionList.SelectAllActivePcrs`: requires at most 16 set bits, because the source writes past its 16 entries beyond that.
- `PcrDumpLoop.PrettyprintPcrsAll`: requires a TPM that keeps to the contract, since the loop need not end otherwise; `PcrDumpEnding.EndsIffFewFruitless` says when it does.
- `Tss2_Sys_PCR_Read` beyond the selection lists: the command and response headers, the update counter and the response codes' meaning.
- `TctiContext.Context.Receive`: the response bytes are the firmware's and are not modelled; the source does not look at them. The firmware is assumed not to alter the input block.
- Repeated initialisation of a context in use, cancel, poll handles, locality and the sticky call, which the source leaves null.
- `tpm2-nv-ops.c`, `tpm2-get-caps-fixed.c`, `tcg2-get-caps.c` and `tcg2-get-pcr-banks.c`: sequences of foreign calls and printing.
