# Verified models of Tegra driver logic

Dafny models of the parts of these kernel drivers that are bookkeeping rather than register
access, with proofs of what they promise. The hardware appears only as a function: a cipher,
a hash step, a group, "the engine ran", "the transfer finished". Everything is stated for all
inputs, all splittings of scatter lists and all runs.

`dafny verify dfyconfig.toml` checks the project.

## What is modelled

* **Security Engine, SHA** (`ScatterList`, `ShaStream`). A hash stream with its residual
  buffer, the second buffer the residue is moved to while the engine still reads it, and the
  command loop. The context is a class; its methods are proved to be steps of a stream, and
  the stream's lemmas lead to the equality with the one-shot hash. The places where the code
  falls short have their exact conditions: the room for entries in list and command buffer,
  the unchecked length of the destination, the 32-bit length registers, and the short cuts that
  keep a digest from being delivered.
* **Security Engine, CMAC** (`Cmac`). Subkeys by shifting bytes in place, and a message
  authenticated in two engine runs, against the definition in RFC 4493; with the exact
  condition under which the first run's mapping fits list and command words.
* **Security Engine, AES batches** (`AesBatch`, `AesLedger`, `AesEngine`). Batches are gathered
  into a static or fresh buffer, turned into commands in one of ten slots, executed, and
  scattered by a completion callback, with later batches under way in between. The class's
  methods are steps on the books of `AesLedger`: who owns which slot and buffer, what every
  buffer holds, what every completed request received, and that no request is lost or
  completed twice. Every step keeps them. The two things the driver does not notice, a length
  that spoils its command word and a failure that frees what an earlier batch has left, are
  steps of the machine, with the exact conditions under which they do harm.
* **Security Engine, queue** (`WorkQueue`, `AesService`). Enqueuers and the worker as a machine
  whose steps are the lock-held sections, with all interleavings; safety and progress.
  `AesService` follows a request from the queue through its batch to its one answer.
* **DMA channel** (`DmaSpec`, `DmaSafety`, `DmaRuns`, `DmaChannel`). Each section under the
  channel lock is one step on the channel's lists. The class's methods are those steps;
  the lemmas show what every step keeps and what holds after every run. Segment requests and
  descriptors are numbered, so a list is a sequence of numbers.
* **Mirror page table** (`MirrorFlat`, `MirrorTable`, `MirrorWalk`). The four-level table with
  symbolic sizes, its walk with moving cursors, and the four callbacks. The walk refines the
  callback run page by page over a flat sequence of entries. Addresses are page numbers.
* **Signatures** (`Residues`, `Curves`, `Ecdsa`, `Eddsa`). The protocols over any cyclic group
  given by its laws; the residues are shown to be such a group.
* **CPU frequencies** (`FreqTable`, `VoltageIndex`). Divider arithmetic with its 32-bit and
  16-bit truncations, the table generator, and the voltage index table.

## What the proofs rely on

* SHA: one stream uses the engine at a time; mapping and allocation succeed; the first entry
  of a request's list is not empty; a request is below 4 GiB less two blocks. `Overrun` is the
  reply when list or command buffer cannot hold the entries; nothing is then known of memory.
  `Misdirected` is the reply when the digest goes to another address; the driver's own state is
  as stated, and nothing is known of what memory holds when the engine has run.
* CMAC: the first entry of a request's list is not empty. `Lost` is the reply when the first
  run's mapping does not fit; nothing is then known of the value.
* AES: requests are whole blocks, as every cipher is registered with the AES block size; modes
  other than ECB come with a vector; the key in a slot does not change while requests that use
  the slot are under way; the clock advances the polling loops over a fixed set of flags. A
  submission to the host, once its buffers are there, succeeds. After an over-long operation
  nothing is known of the buffers then under way. After a buffer was freed in use or twice,
  nothing is known of dynamic buffers, ever.
* DMA: an end-of-transfer interrupt comes only while the channel runs; a terminated channel
  with a pending interrupt has a handler; a descriptor is started over only when it is not
  owed callbacks, which the driver does not check (`DmaSafety.ResetInv` says what follows).
  The mode check at the end of a preparation is one step. Byte counts are unbounded until the
  status call reads them as 32-bit numbers. A cyclic buffer is below 2 GiB.
* Mirror: operations are sequential, ranges are not empty and inside the span. What a page
  frame number of the CPU side means is given as a classification, because the flag and value
  codes are in a header that is not part of this model.
* Signatures: the accelerator computes products, remainders, inverses and points correctly;
  for EdDSA a point is determined by its y-coordinate and the parity of its x-coordinate.
* CPU frequencies: the fields have their declared widths, and the reference clock is at least
  1 kHz.

## Model

| member | source | states |
|---|---|---|
| `ScatterList.CountSgs` | drivers/crypto/tegra-se-nvhost.c:705-718 | the number of entries that hold the request: enough of them, and one fewer would not be |
| `ScatterList.MapSg` | drivers/crypto/tegra-se-nvhost.c:1427-1449 | a mapping whose lengths add up to the total and that reads as exactly the first bytes of the list, for any splitting |
| `ScatterList.ChainBuffers` | drivers/crypto/tegra-se-nvhost.c:1232-1306 | the command loop fails exactly when a source entry is too long for the 24-bit field, where it checks that; otherwise the chain names the bytes of the whole list, the engine can follow it exactly when the first entry is not empty and all entries fit the field, and the result goes where it should exactly when the unchecked destination length fits too |
| `ScatterList.CopyTail` | drivers/crypto/tegra-se-nvhost.c:2098-2132 | the iterator loop copies exactly the last bytes of the request, however the list is cut into pieces, and nothing else of the buffer changes |
| `ShaStream.ShaContext.constructor` | drivers/crypto/tegra-se-nvhost.c:2387-2426 | a fresh stream |
| `ShaStream.ShaContext.ProcessUpdate` | drivers/crypto/tegra-se-nvhost.c:2198-2262 | an update: it overruns exactly when it reaches the engine with more entries than there is room for; otherwise the whole blocks of residue and request go to the engine if there are at least two, the rest stays, and the digest is misdirected exactly when 2^24 bytes or more of the request are taken; residue below two blocks; counters in 32 bits; on a rejected length the counters have moved and the hash has not |
| `ShaStream.ShaContext.ProcessFinup` | drivers/crypto/tegra-se-nvhost.c:2151-2181 | a closing call with data submits residue and request, in order, exactly unless its entries overrun the room, with a destination as long as the request |
| `ShaStream.ShaContext.ProcessFinal` | drivers/crypto/tegra-se-nvhost.c:2182-2197 | a closing call without data submits the residue, with a destination as long as the unused request, or nothing |
| `ShaStream.ShaContext.TurnBuffers` | drivers/crypto/tegra-se-nvhost.c:2213-2247 | the residue in flight is in the second buffer while the first one already holds the new residue |
| `ShaStream.ShaContext.Update` | drivers/crypto/tegra-se-nvhost.c:2428-2447 | update as a step of the stream, empty requests included, or the overrun, exactly when there is one |
| `ShaStream.ShaContext.Finup` | drivers/crypto/tegra-se-nvhost.c:2449-2468 | finup and digest as a step of the stream, empty requests included, or the overrun, exactly when there is one |
| `ShaStream.ShaContext.Final` | drivers/crypto/tegra-se-nvhost.c:2470-2490 | final as a step of the stream, empty requests included |
| `ShaStream.MisdirectedExactly` | drivers/crypto/tegra-se-nvhost.c:1277-1282 | the exact condition for each kind of call: all checks pass, and it takes 2^24 bytes or more of its request, or has as many behind a residue for final |
| `ShaStream.TwoHalves` | drivers/crypto/tegra-se-nvhost.c:2147-2176 | one finup of two segments of 2^23 bytes passes every check and is misdirected |
| `ShaStream.RunStaysOpen` | drivers/crypto/tegra-se-nvhost.c:2134-2282 | over any updates: submissions and residue are the bytes received, in order; every submission is a whole number of blocks; only the first one initialises the hash; the byte counter and the residue add up |
| `ShaStream.DirectedRun` | drivers/crypto/tegra-se-nvhost.c:2198-2262 | over any updates, every digest goes where it should if and only if no update takes 2^24 bytes or more of its request |
| `ShaStream.StreamedHash` | drivers/crypto/tegra-se-nvhost.c:1207-1318 | however a message below 2^29 bytes is cut into updates and a closing request with data, none taking 2^24 bytes of its request, the digest delivered is the one-shot hash of the message |
| `ShaStream.AnnouncedLength` | drivers/crypto/tegra-se-nvhost.c:1256-1275 | over every run, the closing submission announces the true bit count if and only if the message is below 2^29 bytes |
| `ShaStream.StreamedHashExact` | drivers/crypto/tegra-se-nvhost.c:1207-1318 | for a hash that tells lengths apart, the digest delivered is the hash of the message if and only if the message is below 2^29 bytes and no call takes 2^24 bytes of its request |
| `ShaStream.HalfGigabyte` | drivers/crypto/tegra-se-nvhost.c:1256-1275 | a message of 2^29 bytes is announced as empty, however it is cut |
| `ShaStream.ShaWordBound` | drivers/crypto/tegra-se-nvhost.c:1221-1306 | the command buffer holds the words of 144 entries and not of one more |
| `ShaStream.FinupAnswer` | drivers/crypto/tegra-se-nvhost.c:2353-2372 | finup answers for the whole message if and only if its request has bytes, the message is below 2^29 bytes and no call takes 2^24 bytes of its request, or the whole message is empty |
| `ShaStream.FinalAnswer` | drivers/crypto/tegra-se-nvhost.c:2182-2189 | final answers for the whole message if and only if its guards let it, a request with bytes and a residue, or no bytes and an empty message, and in the first case the same length conditions hold |
| `ShaStream.FinalLosesWholeBlocks` | drivers/crypto/tegra-se-nvhost.c:2188-2191 | two blocks, one update and a final: no digest is delivered |
| `Cmac.LeftShiftOneBit` | drivers/crypto/tegra-se-nvhost.c:379-393 | the in-place loop moves every bit up, for a buffer of any size, and returns the top bit |
| `Cmac.ShiftDoubles` | drivers/crypto/tegra-se-nvhost.c:379-393 | as a number the shifted buffer is twice the buffer, less the top bit, modulo 2^(8 size) |
| `Cmac.SubkeyDoubles` | drivers/crypto/tegra-se-nvhost.c:2895-2906 | a subkey step is multiplication by x in GF(2^128), section 2.3 of RFC 4493 |
| `Cmac.SubkeysDouble` | drivers/crypto/tegra-se-nvhost.c:2895-2906 | K1 and K2 are the encrypted zero block doubled once and twice |
| `Cmac.SetKey` | drivers/crypto/tegra-se-nvhost.c:2862-2906 | setkey makes both subkeys from the engine's encryption of zero |
| `Cmac.SplitMessage` | drivers/crypto/tegra-se-nvhost.c:2611-2624 | the two parts of the message: all blocks but the last, and the last, complete or not |
| `Cmac.RunLeading` | drivers/crypto/tegra-se-nvhost.c:2627-2690 | the first run is the rounds of section 2.4 of RFC 4493 over all blocks but the last, exactly if the mapping of the whole list fits 50 entries of less than 2^24 bytes |
| `Cmac.RunLast` | drivers/crypto/tegra-se-nvhost.c:2692-2768 | the second run enciphers the masked last block, chained onto the first run's value |
| `Cmac.Final` | drivers/crypto/tegra-se-nvhost.c:2588-2776 | the result is the AES-CMAC value of section 2.4 of RFC 4493, for any block function and any scatter list, the empty message included, if and only if there is no first run or its mapping fits; it is refused exactly when there is a first run and the message itself covers more than 50 entries, and lost otherwise |
| `Cmac.LongSegmentLoses` | drivers/crypto/tegra-se-nvhost.c:2664-2686 | one segment of 2^24 bytes and a block: the value is lost |
| `AesBatch.OutputAt` | drivers/crypto/tegra-se-nvhost.c:779-800 | a request's result lies at the sum of the lengths of the requests before it |
| `AesBatch.ScatterFills` | drivers/crypto/tegra-se-nvhost.c:788-793 | scattering fills the destination with the data and leaves what is behind |
| `AesBatch.BatchRuns` | drivers/crypto/tegra-se-nvhost.c:1535-1585 | running a batch's commands turns the gathered inputs into the results in place, exactly if every request is below 2^24 bytes: each request's region is transformed with its own settings and vector, whatever the hardware held before |
| `AesBatch.LongRequestStops` | drivers/crypto/tegra-se-nvhost.c:1535-1585 | a request of 2^24 bytes, valid as it is, does not run as meant |
| `AesBatch.WordBound` | drivers/crypto/tegra-se-nvhost.c:411-430 | a batch takes at most 27 words a request and 2, so with the closing increment it fits 4096 words |
| `AesEngine.FindFree` | drivers/crypto/tegra-se-nvhost.c:1587-1603 | the cyclic scan finds a free slot if there is one |
| `AesEngine.Gather` | drivers/crypto/tegra-se-nvhost.c:1500-1512 | the gather loop lays the inputs one behind the other |
| `AesEngine.PrepareCmdbuf` | drivers/crypto/tegra-se-nvhost.c:1535-1585 | the commands of a batch with their running word count, or failure exactly when a context has no key slot |
| `AesEngine.SeDevice.SetupStatic` | drivers/crypto/tegra-se-nvhost.c:1472-1512 | the scan for a static buffer nobody works in and the gathering, as the step of the books; it fails exactly when none is free |
| `AesEngine.SeDevice.SetupAblkReq` | drivers/crypto/tegra-se-nvhost.c:1451-1533 | static or fresh memory for the batch, or the error, as the step of the books |
| `AesEngine.SeDevice.SubmitGather` | drivers/crypto/tegra-se-nvhost.c:898-965 | the commands, closed by a syncpoint increment, and the callback's own copy of the request array |
| `AesEngine.SeDevice.ProcessNewReq` | drivers/crypto/tegra-se-nvhost.c:1605-1664 | processing a batch, with its scans, all its failures and what they free, is the step of the books; the slots its scans come to are free if any is |
| `AesEngine.SeDevice.LoadKeyInto` | drivers/crypto/tegra-se-nvhost.c:1912-1932 | a key load goes out in a command slot of its own, exactly when one is free |
| `AesEngine.SeDevice.HardwareRuns` | drivers/crypto/tegra-se-nvhost.c:1535-1585 | executing any submission that waits is the step of the books |
| `AesEngine.SeDevice.Callback` | drivers/crypto/tegra-se-nvhost.c:749-806 | completing every request of a batch with its own part of the buffer, and freeing slot and buffer, is the step of the books |
| `AesEngine.ScatterNothing` | drivers/crypto/tegra-se-nvhost.c:788-793 | nothing scattered changes nothing |
| `AesLedger.SlotsAdd` | drivers/crypto/tegra-se-nvhost.c:1587-1603 | a slot is marked busy exactly while one submission owns it, and no two share one: kept by submitting |
| `AesLedger.SlotsRemove` | drivers/crypto/tegra-se-nvhost.c:749-765 | and by the callback |
| `AesLedger.BuffersReserve` | drivers/crypto/tegra-se-nvhost.c:1475-1481 | a static buffer is marked busy exactly while a batch owns it or it is being filled or lost: kept by reserving |
| `AesLedger.BuffersAdd` | drivers/crypto/tegra-se-nvhost.c:922-934 | by submitting, where no two batches share a buffer |
| `AesLedger.BuffersRemove` | drivers/crypto/tegra-se-nvhost.c:798-803 | and by the callback |
| `AesLedger.StaticSize` | drivers/crypto/tegra-se-nvhost.c:1615-1621 | a static batch never exceeds its 32768-byte buffer |
| `AesLedger.JobRuns` | drivers/crypto/tegra-se-nvhost.c:1535-1585 | running a submission of short requests changes its own buffer only, from inputs to results, and leaves every other job what it needs |
| `AesLedger.FinishedOk` | drivers/crypto/tegra-se-nvhost.c:779-796 | what the callback hands back has every request's own result in its destination |
| `AesLedger.ProcessedInv` | drivers/crypto/tegra-se-nvhost.c:1605-1664 | a batch is submitted exactly when there is a buffer, a command slot and everybody's key slot; otherwise every request fails once; the books are kept |
| `AesLedger.FailureSpares` | drivers/crypto/tegra-se-nvhost.c:1648-1664 | a failure does no harm if and only if the failing batch had no static buffer or no dynamic batch has left its buffer behind; else every dynamic batch under way has lost its buffer; and a static buffer is lost exactly if it had been taken |
| `AesLedger.StaleBuffer` | drivers/crypto/tegra-se-nvhost.c:1461-1465 | four steps from a fresh device after which a batch under way has lost its buffer |
| `AesLedger.FreedTwice` | drivers/crypto/tegra-se-nvhost.c:1648-1664 | four steps after which the same buffer has been freed twice |
| `AesLedger.ExecutedInv` | drivers/crypto/tegra-se-nvhost.c:1535-1585 | any submission may execute next: the books are kept, and it runs as meant exactly if its requests are short |
| `AesLedger.CalledBackInv` | drivers/crypto/tegra-se-nvhost.c:749-806 | the completion callback keeps the books, while later batches are under way |
| `AesLedger.RunInv` | drivers/crypto/tegra-se-nvhost.c:749-1664 | every run keeps the books, and there is trouble if and only if a step of it was harmful: an over-long request executed, or a buffer freed in use or again |
| `AesLedger.AnsweredOnce` | drivers/crypto/tegra-se-nvhost.c:749-806 | over every run from a fresh device: a request that came in once has come back exactly once when nothing is under way; one that failed untouched, and the others, if no step of the run was harmful, with their own result in the destination |
| `WorkQueue.Device.QueueReq` | drivers/crypto/tegra-se-nvhost.c:1709-1726 | enqueueing as a step of the machine, and who must queue the work item |
| `WorkQueue.Device.CollectBatch` | drivers/crypto/tegra-se-nvhost.c:1676-1702 | the locked loop takes up to 64 requests in order and clears the flag exactly when there was none |
| `WorkQueue.NeverStranded` | drivers/crypto/tegra-se-nvhost.c:1666-1726 | in every interleaving a waiting request has somebody who will act, and requests leave in order, in batches of 1 to 64, none lost or doubled |
| `WorkQueue.EverythingIsHandled` | drivers/crypto/tegra-se-nvhost.c:1666-1726 | from any reachable state every run without new requests is short, and ends with everything handled in order |
| `WorkQueue.RestingIsDone` | drivers/crypto/tegra-se-nvhost.c:1703-1705 | the machine rests only with an empty queue and the flag down |
| `AesService.EveryRequestIsSomewhere` | drivers/crypto/tegra-se-nvhost.c:1605-1726 | in every pair of runs in step, a queued request is in one place: queue, worker, request array, under way or returned, as often as it was queued |
| `AesService.QueuedIsAnswered` | drivers/crypto/tegra-se-nvhost.c:749-1726 | a request queued once is answered exactly once when nothing is left, untouched if it failed and otherwise, without harm, with its own result |
| `DmaSafety.AbortFrees` | drivers/dma/tegra186-gpc-dma.c:595-617 | aborting moves every pending segment and every submitted descriptor to the free lists, in order |
| `DmaSafety.AbortMarks` | drivers/dma/tegra186-gpc-dma.c:595-617 | each of them as an error, owed one callback more; the others unchanged |
| `DmaSafety.OnceInv` | drivers/dma/tegra186-gpc-dma.c:649-677 | a one-shot interrupt keeps all invariants |
| `DmaSafety.OnceCompletes` | drivers/dma/tegra186-gpc-dma.c:649-677 | it completes the head's descriptor exactly at its last pending segment, when all requested bytes are counted |
| `DmaSafety.GroupsAre` | drivers/dma/tegra186-gpc-dma.c:805-818 | the pending list falls into non-empty groups, each of one descriptor, with the last mark only at its end |
| `DmaSafety.CyclicInv` | drivers/dma/tegra186-gpc-dma.c:679-706 | a cyclic interrupt keeps all invariants |
| `DmaSafety.CyclicCases` | drivers/dma/tegra186-gpc-dma.c:619-647 | it rotates, or stays for a single request, or aborts: exactly when the next request is not in flight |
| `DmaSafety.SubmitInv` | drivers/dma/tegra186-gpc-dma.c:805-818 | a submission appends the descriptor's segments and keeps all invariants |
| `DmaSafety.GetDescInv` | drivers/dma/tegra186-gpc-dma.c:367-388 | the descriptor handed out is nobody else's; there is none exactly when none is acknowledged and memory is out |
| `DmaSafety.ResetInv` | drivers/dma/tegra186-gpc-dma.c:1361-1369 | starting over keeps the callback accounts if and only if the descriptor is not owed callbacks |
| `DmaSafety.AddSegmentInv` | drivers/dma/tegra186-gpc-dma.c:1386-1429 | adding a segment to a transfer list keeps every segment in exactly one list |
| `DmaSafety.PutDescInv` | drivers/dma/tegra186-gpc-dma.c:329-340 | a failed preparation returns descriptor and segments |
| `DmaSafety.FinishInv` | drivers/dma/tegra186-gpc-dma.c:1430-1448 | a preparation ends with a complete list, or is refused exactly in the other mode and returns everything |
| `DmaSafety.IssueInv` | drivers/dma/tegra186-gpc-dma.c:820-859 | issuing keeps all invariants |
| `DmaSafety.TakeInv` | drivers/dma/tegra186-gpc-dma.c:716-725 | the tasklet takes a descriptor that is owed callbacks, with its whole count |
| `DmaSafety.TerminateFrees` | drivers/dma/tegra186-gpc-dma.c:872-958 | terminating leaves nothing pending and no callback owed, frees what was pending when the hardware stopped, and forgets the mode if and only if something was pending |
| `DmaSafety.TerminateMarks` | drivers/dma/tegra186-gpc-dma.c:872-958 | every submitted descriptor is then free exactly once and owed nothing: as an error, also when a pending interrupt found the channel stuck, unless that interrupt completed it |
| `DmaRuns.StepInv` | drivers/dma/tegra186-gpc-dma.c:329-858 | every step of clients, interrupts and tasklet keeps the invariants |
| `DmaRuns.StepAccounted` | drivers/dma/tegra186-gpc-dma.c:708-732 | completions recorded are callbacks run, owed, in the tasklet's hands and dropped: kept by every step, interrupts while the lock is dropped included |
| `DmaRuns.TerminateDrops` | drivers/dma/tegra186-gpc-dma.c:950-955 | what terminating drops is what was owed and what it records itself |
| `DmaRuns.StepTurning` | drivers/dma/tegra186-gpc-dma.c:679-706 | the pending list is the one of the last submission rotated once per cyclic interrupt, and a single descriptor's bytes are interrupts times period: kept by every step |
| `DmaRuns.StepOrdered` | drivers/dma/tegra186-gpc-dma.c:649-818 | outside cyclic mode the groups of the pending list are, in the order of submission, a suffix of the first submitted list and then whole ones: kept by every step |
| `DmaRuns.TurnIs` | drivers/dma/tegra186-gpc-dma.c:697-699 | the rotation, in closed form |
| `DmaRuns.RunSound` | drivers/dma/tegra186-gpc-dma.c:329-958 | all of this after every run: the invariants, the callback accounts, the order of the pending list in both modes |
| `DmaRuns.NeverStuck` | drivers/dma/tegra186-gpc-dma.c:619-647 | if a running cyclic channel takes submissions only behind a second request, and a running one without a mode does not become cyclic, no interrupt ever takes the abort branch |
| `DmaRuns.FreshRun` | drivers/dma/tegra186-gpc-dma.c:329-958 | `RunSound` for every run from the channel after probe |
| `DmaRuns.FreshNeverStuck` | drivers/dma/tegra186-gpc-dma.c:329-958 | and `NeverStuck` for every orderly one |
| `DmaRuns.LateSubmission` | drivers/dma/tegra186-gpc-dma.c:697-704 | a submission while it runs is harmless if and only if there is a second request already; behind a single one the next interrupt aborts |
| `DmaRuns.ResidueRange` | drivers/dma/tegra186-gpc-dma.c:982-985 | the residue is in 1..length if and only if the 32-bit count has not become a negative number that is no multiple of the length |
| `DmaRuns.ResidueWraps` | drivers/dma/tegra186-gpc-dma.c:1008-1011 | an input for which it is not |
| `DmaChannel.TegraDmaChannel.AbortEverything` | drivers/dma/tegra186-gpc-dma.c:595-617 | the loop is the abort step |
| `DmaChannel.TegraDmaChannel.OnceDone` | drivers/dma/tegra186-gpc-dma.c:649-677 | the handler is the one-shot step |
| `DmaChannel.TegraDmaChannel.ContinueHead` | drivers/dma/tegra186-gpc-dma.c:619-647 | the head check, and what follows |
| `DmaChannel.TegraDmaChannel.CycleDone` | drivers/dma/tegra186-gpc-dma.c:679-706 | the handler is the cyclic step |
| `DmaChannel.TegraDmaChannel.Issue` | drivers/dma/tegra186-gpc-dma.c:820-859 | issuing is the issue step |
| `DmaChannel.TegraDmaChannel.TxSubmit` | drivers/dma/tegra186-gpc-dma.c:805-818 | submitting is the submission step |
| `DmaChannel.TegraDmaChannel.TerminateAll` | drivers/dma/tegra186-gpc-dma.c:872-958 | terminating is the termination step |
| `DmaChannel.TegraDmaChannel.NextCallbacks` | drivers/dma/tegra186-gpc-dma.c:716-725 | the locked part of a tasklet turn is the take step |
| `DmaChannel.TegraDmaChannel.DescGet` | drivers/dma/tegra186-gpc-dma.c:367-388 | the search for an acknowledged descriptor is the get step |
| `DmaChannel.TegraDmaChannel.PrepSlaveSg` | drivers/dma/tegra186-gpc-dma.c:1310-1464 | a descriptor with exactly the client's segments, exactly when configured, not cyclic, with a known direction, acceptable segments and memory enough; otherwise nothing is kept |
| `DmaChannel.TegraDmaChannel.PrepDmaCyclic` | drivers/dma/tegra186-gpc-dma.c:1467-1633 | a descriptor with one segment a period, exactly under the conditions the function tests, the direction among them, and with memory enough; otherwise nothing is kept |
| `MirrorFlat.UpdateClears` | drivers/char/hmm_dmirror.c:298-312 | invalidation clears exactly its range |
| `MirrorFlat.FaultInstalls` | drivers/char/hmm_dmirror.c:460-507 | a fault installs exactly the pages that are there |
| `MirrorFlat.FaultCounts` | drivers/char/hmm_dmirror.c:482-503 | it counts what is missing for the access and notes what is invalid |
| `MirrorFlat.ReadCopies` | drivers/char/hmm_dmirror.c:611-647 | a read succeeds if and only if every page can be read; then each is in its own place |
| `MirrorFlat.WriteCopies` | drivers/char/hmm_dmirror.c:696-731 | a write succeeds if and only if every page may be written; then memory holds what was written last |
| `MirrorFlat.CopiedOnce` | drivers/char/hmm_dmirror.c:649-780 | what a read copies is determined by what the mirror and memory hold |
| `MirrorWalk.WriteThenRead` | drivers/char/hmm_dmirror.c:649-780 | a read behind a write of the same range succeeds and returns what was written, if every address has a page of its own |
| `MirrorFlat.FaultedIsReachable` | drivers/char/hmm_dmirror.c:572-596 | after a fault with nothing missing or invalid the range can be accessed, unless another mirror's device memory is in it |
| `MirrorTable.LeafRange` | drivers/char/hmm_dmirror.c:108-111 | an address's leaf table ends where dmirror_pt_pte_end says, and behind it comes the next slot of the same middle table or that one ends too |
| `MirrorTable.MidRange` | drivers/char/hmm_dmirror.c:132-135 | the same a level up |
| `MirrorTable.TopRange` | drivers/char/hmm_dmirror.c:127-130 | and another |
| `MirrorTable.ShiftForms` | drivers/char/hmm_dmirror.c:93-140 | the shifts and masks are these quotients, on every level |
| `MirrorTable.IndicesUnique` | drivers/char/hmm_dmirror.c:93-111 | the four indices tell addresses apart |
| `MirrorTable.LeafWrite` | drivers/char/hmm_dmirror.c:307-310 | writing a leaf slot changes the one address that leads to it |
| `MirrorTable.Grow` | drivers/char/hmm_dmirror.c:189-195 | a new table page in a vacant slot changes nothing of what the table means |
| `MirrorTable.GrowRoot` | drivers/char/hmm_dmirror.c:169-173 | neither does one in the root |
| `MirrorWalk.Mirror.DoUpdate` | drivers/char/hmm_dmirror.c:298-312 | the callback is the flat update of its pages |
| `MirrorWalk.Mirror.DoFault` | drivers/char/hmm_dmirror.c:460-507 | the callback is the flat fault of its pages |
| `MirrorWalk.Mirror.DoRead` | drivers/char/hmm_dmirror.c:611-647 | the callback is the flat read of its pages |
| `MirrorWalk.Mirror.DoWrite` | drivers/char/hmm_dmirror.c:696-731 | the callback is the flat write of its pages |
| `MirrorWalk.Mirror.WalkLeaves` | drivers/char/hmm_dmirror.c:199-238 | the innermost loop does its pages in order, slot by slot, each callback inside one leaf table at the slot of its first page |
| `MirrorWalk.Mirror.WalkMids` | drivers/char/hmm_dmirror.c:180-241 | so does the middle loop |
| `MirrorWalk.Mirror.Walk` | drivers/char/hmm_dmirror.c:147-245 | the whole walk is the callback on every page of the range, one by one, up to its first error; only a failed allocation stops it earlier; with populate every page reached has a leaf table then and was visited in it; without, nothing is allocated, the upper tables stay, and exactly the pages with a leaf table are visited |
| `MirrorWalk.VisitsExactly` | drivers/char/hmm_dmirror.c:163-238 | the visits are the pages of the range that have a leaf table, each once, in order, with that table |
| `MirrorWalk.Mirror.Invalidate` | drivers/char/hmm_dmirror.c:314-327 | the mirror means what it meant, without the range; no table page is allocated or replaced, and the pages visited are those with a leaf table |
| `MirrorWalk.Mirror.Install` | drivers/char/hmm_dmirror.c:572-584 | exactly the pages that are there are installed, all of them, or, after a failed allocation, those in front of it; and what was missing or invalid among them is reported |
| `MirrorWalk.Mirror.ReadPages` | drivers/char/hmm_dmirror.c:670-675 | a read walk that returns 0 has copied every page to its place; it asks for a fault if and only if a page cannot be read |
| `MirrorWalk.Mirror.WritePages` | drivers/char/hmm_dmirror.c:757-762 | a write walk that returns 0 has written every page |
| `Ecdsa.Sign` | drivers/crypto/tegra-se-elp.c:4083-4178 | the signature equations of section 4.1.3 of SEC 1; failure exactly for a destination that is too short |
| `Ecdsa.Verify` | drivers/crypto/tegra-se-elp.c:4180-4292 | for whichever secret the public point belongs to, the check passes if and only if r comes from the point (z + d r) / s |
| `Ecdsa.VerifiedPoint` | drivers/crypto/tegra-se-elp.c:4222-4253 | the check of section 4.1.4 of SEC 1 accepts if and only if r comes from the point (z + d r) / s |
| `Ecdsa.VerifyAcceptsSign` | drivers/crypto/tegra-se-elp.c:4083-4292 | verifying accepts what signing made, for every group, key, hash and nonce with invertible nonce and s |
| `Eddsa.PointEncode` | drivers/crypto/tegra-se-elp.c:2230-2243 | the loop writes y with the parity of x on top |
| `Eddsa.PointDecode` | drivers/crypto/tegra-se-elp.c:2245-2256 | the loop takes them apart |
| `Eddsa.DecodeEncode` | drivers/crypto/tegra-se-elp.c:2230-2256 | decoding undoes encoding, if and only if y leaves the top bit free |
| `Eddsa.ModMult` | drivers/crypto/tegra-se-elp.c:2513-2548 | reduce, multiply to double width, reduce: the product modulo n |
| `Eddsa.ModAdd` | drivers/crypto/tegra-se-elp.c:2550-2579 | the sum modulo n |
| `Eddsa.EddsaContext.GenPubKey` | drivers/crypto/tegra-se-elp.c:2849-2906 | the pruned scalar and the encoding of its public point |
| `Eddsa.EddsaContext.Sign` | drivers/crypto/tegra-se-elp.c:3023-3134 | the signature equations of section 5.1.6 of RFC 8032; the context keeps k |
| `Eddsa.EddsaContext.Verify` | drivers/crypto/tegra-se-elp.c:3136-3245 | both points are recovered, multiplied and compared, with the k that is in the context; for whichever scalars they belong to, it passes if and only if 8 s and 8 (k h0 + r) times the base point agree in two words of each coordinate |
| `Eddsa.ComparedPoints` | drivers/crypto/tegra-se-elp.c:3187-3224 | the compared points are 8 s and 8 (k h0 + r) times the base point |
| `Eddsa.AcceptsAlike` | drivers/crypto/tegra-se-elp.c:3187-3236 | the check passes if and only if those two points are alike |
| `Eddsa.VerifyAcceptsSign` | drivers/crypto/tegra-se-elp.c:3023-3245 | verifying on the same context accepts what signing made, for every key and message |
| `Eddsa.PointsEqual` | drivers/crypto/tegra-se-elp.c:3187-3236 | for any k in the context the points are equal if and only if s is k h0 + r modulo n |
| `Eddsa.ResiduesAreLawful` | drivers/crypto/tegra-se-elp.c:3023-3245 | the laws asked of the curve can be met, with a factor of eight |
| `FreqTable.UpdateCpuSpeed` | drivers/cpufreq/tegra194_cpufreq.c:302-320 | the request is a divider of the cluster, unless it has no table; without overflow it is the least one in range that reaches the rate, or the maximum |
| `FreqTable.FreqToNdivIs` | drivers/cpufreq/tegra194_cpufreq.c:136-141 | without 32-bit or 16-bit overflow the division rounds up |
| `FreqTable.FreqNdivGalois` | drivers/cpufreq/tegra194_cpufreq.c:136-148 | a frequency needs at most divider n if and only if divider n reaches it |
| `FreqTable.NdivRoundTrip` | drivers/cpufreq/tegra194_cpufreq.c:136-148 | going to a frequency and back loses whole reference clocks: it is exact if and only if less than one was lost |
| `FreqTable.SelectProgramsEntry` | drivers/cpufreq/tegra194_cpufreq.c:302-320 | selecting an entry programs its divider if and only if less than a reference clock was lost or it is the minimum |
| `FreqTable.StepIsLeastMultiple` | drivers/cpufreq/tegra194_cpufreq.c:939-942 | a step from the device tree becomes the least multiple of mdiv that is large enough if and only if that is below 2^16, and 0 if and only if it is 2^16 |
| `FreqTable.DefaultStep` | drivers/cpufreq/tegra194_cpufreq.c:936-937 | without one it is mdiv times the least number of reference clocks that make 50 MHz if and only if neither the 32-bit sum nor the 16-bit product wraps; and exactly when it is 0 |
| `FreqTable.StepVanishes` | drivers/cpufreq/tegra194_cpufreq.c:936-942 | two clusters, one for either branch, whose step is 0 |
| `FreqTable.StepsCount` | drivers/cpufreq/tegra194_cpufreq.c:953-961 | the step count is the number of loop turns |
| `FreqTable.LoopStops` | drivers/cpufreq/tegra194_cpufreq.c:974-977 | after that many turns the loop stops if and only if its 16-bit divider does not wrap |
| `FreqTable.LoopWraps` | drivers/cpufreq/tegra194_cpufreq.c:974-977 | steps of two from 0 to 65535: the divider wraps to 0 |
| `FreqTable.InitFreqTable` | drivers/cpufreq/tegra194_cpufreq.c:936-981 | the driver divides by zero if and only if the step has vanished; otherwise the table is filled exactly, one entry a step, the maximum, the end mark, in what was allocated, if and only if neither the divider nor the 16-bit number of entries wraps, and else the loop runs behind the end |
| `FreqTable.CountWraps` | drivers/cpufreq/tegra194_cpufreq.c:954-962 | the number of entries wraps, to 0, exactly for every divider from 0 to 65535 |
| `FreqTable.TableAscends` | drivers/cpufreq/tegra194_cpufreq.c:974-981 | the table ascends, strictly if a divider step is at least a kHz |
| `FreqTable.EverySelectionIsExact` | drivers/cpufreq/tegra194_cpufreq.c:302-320 | every entry of such a table programs the divider it was built from |
| `VoltageIndex.CreateNdivToVindexTable` | drivers/cpufreq/tegra_cpufreq.c:1215-1226 | every divider gets the least voltage index that supports it, or the ceiling, in one pass that writes every entry once |
| `VoltageIndex.OwedUnique` | drivers/cpufreq/tegra_cpufreq.c:1215-1226 | there is only one such index |
| `VoltageIndex.OwedAscends` | drivers/cpufreq/tegra_cpufreq.c:1215-1226 | the table does not fall, whatever the order of the firmware's dividers |
| `VoltageIndex.OwedIsEnough` | drivers/cpufreq/tegra_cpufreq.c:1215-1226 | an entry supports its divider if any index does |

## Left out

- Register writes, clocks, power management, device trees, probing, debugfs: no logic to prove.
- The ciphers, the hash functions, curve arithmetic and the recovery of an x-coordinate: done by hardware or in a finite field, so they are parameters.
- ShaStream.FinupAnswer: an empty finup behind earlier data delivers no digest, or the empty message's one when only a residue was kept, as in the driver; the lemma says exactly when the answer is for the whole message.
- ShaStream.ShaContext.Update: does not say what an overrun or a misdirected digest destroys, because that is memory outside the context.
- AesLedger.AnsweredOnce: says nothing of the destinations of batches that run after an over-long operation or lose their buffer, because what the engine or the allocator then do is open.
- Cleanup after a failed submission to the host channel, after a failed mapping, the double key load of XTS and the sharing of the command area with the random generator: ownership is not what those paths keep.
- Key changes: a command buffer is modelled with the key that was in the slot; reloading a slot in use is not modelled.
- Backlog notifications of the crypto queue, and the mutex around the worker: they do not touch the queue's order.
- AesEngine.SeDevice.Callback: one step, although the driver frees the command slot some lines before it reads the buffer; a slot's commands have been executed by then.
- DMA preparation of memcpy and memset, pausing the hardware and waiting for bursts: near copies of the modelled preparation, and polling.
- DmaChannel.TegraDmaChannel.TerminateAll: does not model the timeout of the pause, which leaves the function early.
- Descriptors and segment requests of the DMA driver are numbered records, not linked nodes: pointer-level corruption of a list whose node is initialised while it is linked is not captured beyond `DmaSafety.ResetInv`.
- Cookies of the DMA engine: their functions are not part of the repository.
- The loop of dummy_fault over memory areas, the ioctl layer and migration to device memory: they depend on kernel code that is not part of this model.
- The raw encoding of a table entry (frame number and flag bits): entries are values; the flag for writable pages is taken from an enumeration constant in the driver, and is part of the classification here.
- EdDSA messages whose length is not a multiple of four: the driver hashes whole words only, and the model's messages are words.
- The sizes of the temporary buffers of EdDSA: the driver allocates as many bytes as it needs words, and the model's sequences have the length they need.
- Eddsa.EddsaContext.Verify: compares a quarter of the words of each coordinate, and takes neither message nor k from its caller, as in the driver.
- Ecdsa.Verify: does not check the range of r and s, as in the driver.
- The older and the virtualised Security Engine drivers, and the ioctl front end: they repeat the modelled logic.
