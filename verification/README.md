# Gateway storage and protocol verification

A Dafny model of the store-and-forward core of the PMBus-to-MQTT gateway firmware under
`rtos_test/source`, with proofs of what that code is meant to guarantee.

`dafny verify dfyconfig.toml` checks the whole project.

## What is modelled

* **Checksums** (`ShiftRegister`, `Crc`, `Integrity`, `Pec`).  Both CRC-32 forms and the CRC-8 packet
  error code of section 5.4 of the SMBus Specification, version 2.0, are shown to be shift registers over
  bit strings, which gives error detection for messages of any length.
* **QSPI ring and journal** (`QspiLayout`, `QspiJournal`, `QspiBuffer`, `QspiEdges`, `QspiFill`, `QspiDelivery`,
  `QspiReach`, `QspiDriver`).  The device is a sequence of bytes that programming can only clear and erasing sets.  Records are placed at positions that
  never wrap; the code's addresses are where those positions fall.  What the driver does when the flash obeys is
  a function of its state, the theorems are about that function, and the class `QspiDriver` is proved to compute
  it.  A power loss is modelled as the set of all device contents it can leave at any point of a call.
* **Two-tier buffer** (`FlashBuffer`, `BufferManager`, `BufferFlush`).  The Em_EEPROM rows, the RAM ring in front of
  them, and the loops that publish from both.  The flash may fail at any write; `reliable` says that it does not.
* **Migration under interleaving** (`Migration`).  The writer and the flusher of `buffer_mgr.c` and `buffer_flush.c`,
  one step per critical section.
* **Intake and drain** (`Intake`, `Drain`).  Queues, rescue rings and the drain loops, with the exact condition under
  which a drain ends.
* **Sequence counter** (`PersistentSeq`).  Two banks written in turn, over arbitrary runs of boots, numbers, failed and
  torn writes.
* **Command pipeline** (`CmdHandler`, `CmdPipeline`, `CmdTasks`).  The tracker and the cache as in-place rings, the
  pipeline as a transition system of the two FreeRTOS tasks, and their loops over the real rings.
* **Tokenizer** (`Jsmn`), **statistics** (`Metrics`) and **publish filter** (`PublishFilter`).

Helpers: `Words` (machine words, bitwise operators and little-endian bytes over integers), `Records`, `Cyclic`
(rings over a fixed store).

The storage modules are proved for an arbitrary checksum function and instantiated with the CRC-32 in
`Integrity`.  Classes whose state is looked at by others keep it behind a predicate `Valid` that is opened and
closed by two lemmas, and show a ghost sequence instead.

## Where the code and its documentation differ

The model follows the code in each case.

* `buffer_mgr.h:97-99` says that the oldest RAM record is overwritten when both tiers are full; the code spills that
  record and gives up the oldest persistent one (`BufferManager.OneQueue`).
* The comment at `flash_buffer.c:150` speaks of 20 bytes under the metadata checksum; the code covers 16.
* `cmd_handler.h:56-57` counts requests, responses and a pending slot; one more command may be executing.  The depth
  is still enough, because raw messages are read only while nothing is pending (`CmdPipeline.TrackerNeverShort`).
* `persistent_seq.h` promises recovery after every boot; `gateway_ipc.c:69-71` ignores a failed init, and then a
  checkpoint may be written over the row the durable pair is in (`PersistentSeq.FailedInitExactly`,
  `WreckedCheckpointExactly`).

## Properties that fail, and exactly when

* As long as every put into the record ring leaves four bytes in its sector the ring is a FIFO
  (`QspiBuffer.RunRefines`).  In a run without events, from a head at a multiple of five, every put does
  (`WithoutEventsRefines`).  Any put that starts with four bytes left is itself kept (`PutRefines`); the one after it
  meets an edge:
  * With one to three bytes left the next record is counted but not handed out.  Peeking and consuming hands out every
    record before it; then the lookup at the bytes left over fails, a drop is counted for no record, and the tail is
    skipped to where the record is intact (`QspiDelivery.LeftoverDelivers`).  With more records in that sector the
    ring hands out all but the newest (`LeftoverLags`).  Only behind the last sector, when the bytes of the reserved
    sector that the magic word reaches are blank, is the record handed out.
  * With none left the next put skips the erase (`QspiFill.ExactFillExactly`).  Unless the head has come round to the
    tail, the queue gets the record if and only if every bit it needs is still set there: on a blank sector always
    (`KeptOnBlank`), over an old record if and only if it is of the same kind and needs no bit the old one cleared
    (`KeptBehindLap`).  With the head at the tail, which the room check takes for an empty lap, the put goes over
    the oldest live record without dropping it: the queue is right if and only if that same record is put again, and
    a record that the oldest covers comes out first and once more last.
  * All three are reached from a reset ring (`QspiReach.LeftoverReached`, `ExactFillReached`, `FullLapReached`).
* A flush publishes a RAM record before a persistent one if and only if the client refuses one and takes the next
  inside one call, or a corrupt row ends the first loop early (`BufferFlush.OvertakesExactly`).
* Peek, publish and consume are three critical sections (`Migration.ConsumeExactly`).
* A drain ends if and only if the free places of the store hold everything up to the event queue and all but one event
  queue of the rest; otherwise its own overflow events keep it going (`Drain.DrainEndsExactly`).  The free places are
  those of RAM when nothing is spilled (`TurnsWithout`), or those of both tiers when the persistent one refuses once it
  is full (`DrainTurns`).  With a tier that takes some spills and fails others, a drain that outlasts the free places and
  the spills takes every further turn to post an event (`TurnsAccount`).
* After a failed init no pair of boot count and number is issued twice unless a number was issued and no checkpoint of
  that boot landed (`PersistentSeq.IssuedAgainExactly`, `FailedInitLoosens`).
* A malformed command that reuses the id of one in the pipeline can make the tracker forget it
  (`CmdPipeline.StepKeepsExactly`, `ConfusionForgets`).
* With drop_oldest off, a refused record is counted as dropped without having been counted in, once per full tier
  (`BufferManager.PutInTiers`).
* Boot counts and number comparison wrap (`PersistentSeq.InitDurableExactly`, `ChoosesNewerExactly`).
* The deadband subtraction wraps at 32 bits (`PublishFilter.SignedDeadbandExactly`).

## Model

| member | source | states |
|---|---|---|
| Crc.Crc32ByBranch | rtos_test/source/flash_buffer.c:34-51 | the branching bit loop computes the CRC-32 of its input |
| Crc.Crc32ByMask | rtos_test/source/qspi_buffer.c:94-104 | the mask form of the bit loop computes the same CRC-32, for every input |
| Crc.MaskIsBranch | rtos_test/source/qspi_buffer.c:100 | one masked shift equals one branching shift for every register value |
| Crc.Crc32Linear | rtos_test/source/flash_buffer.c:34-51 | the difference of two CRC-32 values depends only on the difference of the messages, at any length |
| Crc.Crc8Linear | rtos_test/source/pmbus_master.c:446-466 | the CRC-8 of a difference is the difference of the CRC-8 values |
| Crc.Crc32Residue | rtos_test/source/flash_buffer.c:34-51 | messages followed by their CRC-32 all leave the same register, and a message followed by anything else does not |
| Crc.Crc32DetectsBurst | rtos_test/source/flash_buffer.c:34-51 | two messages of any length that differ only within 32 consecutive bits have different CRC-32 values |
| Integrity.FourBytesDetected | rtos_test/source/persistent_seq.c:30-47 | a change confined to four consecutive bytes of a message of any length changes its CRC-32 |
| Integrity.DamageFound | rtos_test/source/flash_buffer.c:224-249 | damage within four consecutive bytes, anywhere in a message and the CRC-32 stored behind it, makes the two disagree |
| Integrity.DamagedRowRejected | rtos_test/source/flash_buffer.c:224-249 | a data row so damaged, stored checksum included, is not accepted as a record |
| Integrity.DamagedMetaRejected | rtos_test/source/flash_buffer.c:166-199 | a metadata row so damaged does not validate |
| Integrity.DamagedBankRejected | rtos_test/source/persistent_seq.c:122-144 | a sequence bank so damaged is not accepted |
| Integrity.DamagedEntryRejected | rtos_test/source/qspi_buffer.c:193-211 | a journal entry so damaged is not believed by recovery |
| Integrity.DamagedRecordRejected | rtos_test/source/qspi_buffer.c:384-472 | a QSPI record so damaged is not found at its place, unless kind byte and length become those of another kind |
| Crc.Crc8ByLoop | rtos_test/source/pmbus_master.c:446-466 | the nested loops compute the CRC-8 |
| Crc.Crc8DetectsBurst | rtos_test/source/pmbus_master.c:446-466 | changes within 8 consecutive bits, so to any one byte, change the CRC-8 |
| Crc.Crc8DetectsOddErrors | rtos_test/source/pmbus_master.c:446-466 | flipping an odd number of bits anywhere changes the CRC-8 |
| Crc.PecResidue | rtos_test/source/pmbus_master.c:446-466 | a frame followed by a byte checks to zero if and only if that byte is the frame's PEC |
| Pec.FrameWrite | rtos_test/source/pmbus_master.c:1069-1083 | a PEC write sends the data and one byte that makes the addressed frame check to zero |
| Pec.CheckRead | rtos_test/source/pmbus_master.c:1204-1227 | a read is accepted if and only if the whole transaction checks to zero, and then returns the data bytes |
| Pec.LineBurstRejected | rtos_test/source/pmbus_master.c:1131-1142 | an answer, PEC included, that arrives changed within 8 consecutive bits fails the check of the read |
| Records.HeaderRoundTrip | rtos_test/source/qspi_buffer.c:352-358 | every header field is read back from where it was written |
| QspiLayout.RecordRoundTrip | rtos_test/source/qspi_buffer.c:384-472 | a stored record is found at its start, passes the checksum and is returned unchanged |
| QspiLayout.RoomMeans | rtos_test/source/qspi_buffer.c:267-292 | over live records there is room exactly when the put need not erase the tail's sector, and head never trails tail inside one sector |
| QspiLayout.ReadOldest | rtos_test/source/qspi_buffer.c:384-507 | looking up the tail finds the oldest record, across padding, and consuming it moves the tail to that record's end |
| QspiLayout.ChainReads | rtos_test/source/qspi_buffer.c:384-507 | following headers and padding from the tail for count records reads exactly the queue and ends at the head |
| QspiJournal.EntryRoundTrip | rtos_test/source/qspi_buffer.c:110-132 | a journal entry within the sanity bounds is accepted and read back whole |
| QspiJournal.RecoverExact | rtos_test/source/qspi_buffer.c:175-230 | the two-sector scan finds exactly the newest entry, its sector and its index |
| QspiJournal.AppendHolds | rtos_test/source/qspi_buffer.c:110-151 | after every append, rollovers included, the appended entry is the newest and the journal is ready for the next |
| QspiJournal.AppendTearsReboot | rtos_test/source/qspi_buffer.c:118-147 | a power loss anywhere inside an append leaves the previous or the new entry to recover |
| QspiBuffer.SaneCount | rtos_test/source/qspi_buffer.c:204-211 | the number of live records is within the sanity bound recovery applies, because their bytes are disjoint |
| QspiBuffer.RebootExact | rtos_test/source/qspi_buffer.c:175-230 | a reboot recovers the cached metadata, the active sector, the next index and the queue |
| QspiBuffer.PeekRefines | rtos_test/source/qspi_buffer.c:429-472 | peek returns the oldest record of the queue |
| QspiBuffer.ConsumeRefines | rtos_test/source/qspi_buffer.c:474-507 | consume removes exactly the oldest record; a power loss inside it loses at most that one |
| QspiBuffer.RoomKeeps | rtos_test/source/qspi_buffer.c:313-319 | the drop loop ends with room, drops only a prefix, never runs out of records, and a power loss inside it loses only what it drops |
| QspiBuffer.PutSafety | rtos_test/source/qspi_buffer.c:313-372 | the erased sector holds no live byte, and the record is programmed onto erased bytes |
| QspiBuffer.PutRefines | rtos_test/source/qspi_buffer.c:294-381 | a put that starts with four bytes left in the head's sector appends its record, dropping a prefix only without room; the ring is sound again unless the record fills its sector; a power loss anywhere inside leaves the old queue less a dropped prefix, or the new queue |
| QspiBuffer.RunRefines | rtos_test/source/qspi_buffer.c:294-507 | over any run of consumes and of puts of any kind that leave four bytes in their sectors, the ring is a FIFO that loses only a prefix |
| QspiBuffer.WithoutEventsRefines | rtos_test/source/qspi_buffer.c:294-507 | a run without event records, from a head at a multiple of five in its sector, is such a run |
| QspiBuffer.ResetIsEmpty | rtos_test/source/qspi_buffer.c:153-173 | a metadata reset leaves an empty ring that a reboot finds empty |
| QspiEdges.KeepsHeadBlank | rtos_test/source/qspi_buffer.c:325-335 | in a sound ring the rest of the head's sector is blank |
| QspiEdges.LeftoverReadsExactly | rtos_test/source/qspi_buffer.c:384-402 | after a put that leaves one to three bytes the lookup there fails whatever is put next, unless that goes to the first data sector and the reserved bytes the magic word reaches are blank, and then it is found |
| QspiDelivery.HandsOutIs | rtos_test/source/qspi_buffer.c:429-507 | what peeking and consuming to the end hands out is what as many lookups on the device find, a failing one skipping to the next sector |
| QspiDelivery.ReadsHandsOut | rtos_test/source/qspi_buffer.c:429-507 | a ring that holds a queue hands out exactly that queue |
| QspiDelivery.LeftoverDelivers | rtos_test/source/qspi_buffer.c:294-507 | with one to three bytes left a put drops at most a prefix, for want of room; the record is counted, not handed out, and intact where the failing lookup's skip leaves the tail; it is handed out exactly across a blank reserved sector |
| QspiDelivery.LeftoverLags | rtos_test/source/qspi_buffer.c:294-507 | after any further puts into that sector the ring hands out all records but the newest, one less than it counts |
| QspiReach.LeftoverReached | rtos_test/source/qspi_buffer.c:294-507 | 3491 telemetry records and four events from a reset ring leave three bytes, and the record put next is counted and not handed out |
| QspiEdges.ExactFillOnBlank | rtos_test/source/qspi_buffer.c:325-335 | from any state, after a put that fills its sector the lookup at the next sector finds the next record if that sector is blank where it goes |
| QspiEdges.ExactFillOverOld | rtos_test/source/qspi_buffer.c:325-335 | from any state, if that sector begins with an old record, the lookup there finds the next one if and only if it is of the same kind and no bit of its time, boot generation, payload and checksum is clear in the old one |
| QspiFill.RoomHolds | rtos_test/source/qspi_buffer.c:313-319 | over any live records the drop loop keeps what it leaves, and neither makes nor ends the case of a head at the tail |
| QspiFill.PutUnerased | rtos_test/source/qspi_buffer.c:267-381 | a put that erases nothing, over whatever is in the head's sector: away from the tail the older records stay readable and the queue gets the record if and only if every bit it needs is still set; with the head at the tail at a sector's start the oldest record is written over undropped, the queue is right if and only if the same record is put again, and a record it covers comes out first and once more last |
| QspiFill.ExactFillExactly | rtos_test/source/qspi_buffer.c:294-381 | a put that fills its sector is kept, and the next one is such a put |
| QspiFill.KeptOnBlank | rtos_test/source/qspi_buffer.c:325-335 | where the next sector is blank the queue gets the record, and with the tail in another sector the ring is sound |
| QspiFill.KeptBehindLap | rtos_test/source/qspi_buffer.c:325-335 | where it begins with an old record the queue gets the next one if and only if the old one covers it, or, with the head at the tail, is that record |
| QspiReach.ExactFillReached | rtos_test/source/qspi_buffer.c:294-381 | a run of puts from a reset ring, a whole lap and more, ends in a sound ring one put short of filling a sector before an old record, with the exact condition on what follows |
| QspiReach.FullLapReached | rtos_test/source/qspi_buffer.c:267-381 | a lap of puts from a reset ring, nothing dropped or consumed, ends with the head at the tail and room reported, and the next put goes over the oldest record |
| QspiDriver.QspiDriver.MetadataAppend | rtos_test/source/qspi_buffer.c:110-151 | the code appends as the model does, and every content a power loss can leave is one the theorems cover |
| QspiDriver.QspiDriver.ScanJournal | rtos_test/source/qspi_buffer.c:175-211 | the nested scan loops compute the recovery function |
| QspiDriver.QspiDriver.Init | rtos_test/source/qspi_buffer.c:175-265 | init takes up what the scan finds and resets the journal otherwise |
| QspiDriver.QspiDriver.MakeRoomFor | rtos_test/source/qspi_buffer.c:313-319 | the drop loop makes room, never reaches its failure return, keeps the record balance |
| QspiDriver.QspiDriver.ConsumeInternal | rtos_test/source/qspi_buffer.c:474-507 | consume and drop compute the model's state and count the record out |
| QspiDriver.QspiDriver.Peek | rtos_test/source/qspi_buffer.c:429-472 | peek returns the record at the tail, and drops it when it is corrupt |
| QspiDriver.QspiDriver.PutRecord | rtos_test/source/qspi_buffer.c:294-381 | put computes the model's state when the flash obeys, rejects empty payloads, keeps the record balance |
| PersistentSeq.BankRoundTrip | rtos_test/source/persistent_seq.c:122-144 | a prepared bank is valid and carries its pair |
| PersistentSeq.ChoosesNewerExactly | rtos_test/source/persistent_seq.c:162-208 | of two numbers the boot picks the larger if and only if they are less than 2^31 apart, or exactly 2^31 with the larger in bank B |
| PersistentSeq.InitKeeps | rtos_test/source/persistent_seq.c:150-254 | init recovers exactly the newest durable pair; afterwards the new pair is durable if its row was completely written and the old one otherwise |
| PersistentSeq.CheckpointKeeps | rtos_test/source/persistent_seq.c:266-281 | a checkpoint, complete, failed or torn, leaves the newest completely written pair recoverable |
| PersistentSeq.NextBootExact | rtos_test/source/persistent_seq.c:150-281 | over every run of boots, failed inits included, numbers and power losses, a boot recovers exactly the newest durable pair, and the bank not written next holds it once the boot count is durable |
| PersistentSeq.NeverIssuedTwice | rtos_test/source/gateway_ipc.c:114-132 | no pair of boot count and number is issued twice across all boots and crashes, unless the gateway comes up with numbers issued under a boot count that is in no row |
| PersistentSeq.SafeWithoutFailedInit | rtos_test/source/persistent_seq.c:150-254 | runs in which no init fails have no such numbers |
| PersistentSeq.IssuedAgainExactly | rtos_test/source/gateway_ipc.c:69-71 | the first number after a boot has been issued before with its boot count if and only if there were such numbers |
| PersistentSeq.FailedInitLoosens | rtos_test/source/gateway_ipc.c:69-132 | a failed init leaves such numbers if and only if one is issued and no checkpoint of that boot lands |
| PersistentSeq.LooseReached | rtos_test/source/gateway_ipc.c:69-132 | a failed init and a failed first checkpoint leave one |
| PersistentSeq.PromptLag | rtos_test/source/gateway_ipc.c:126-129 | at any point of a run without failed writes the durable number is at most 100 behind the counter |
| PersistentSeq.ReissuesAtMost100 | rtos_test/source/gateway_ipc.c:114-132 | a boot starts at most 100 below the end of all numbers ever issued |
| PersistentSeq.FailedInitExactly | rtos_test/source/persistent_seq.c:226-236 | after a failed init, whatever it left, the durable pair is safe from the next write if and only if the boot did not recover from bank A or bank B holds the pair too |
| PersistentSeq.WreckedCheckpointExactly | rtos_test/source/persistent_seq.c:266-281 | a checkpoint that wrecks its row after a failed init makes the next boot recover what bank B holds, which is the durable pair under that same condition |
| PersistentSeq.InitDurableExactly | rtos_test/source/persistent_seq.c:190-222 | what init wrote is what the next boot recovers if and only if the boot count did not wrap |
| PersistentSeq.SequenceCounter.Init | rtos_test/source/persistent_seq.c:150-254 | the code takes the model's init step |
| PersistentSeq.SequenceCounter.NextSeq | rtos_test/source/gateway_ipc.c:114-132 | the code issues the counter and checkpoints every hundredth number |
| FlashBuffer.RowRoundTrip | rtos_test/source/flash_buffer.c:366-390 | a record written to a row validates and comes back unchanged |
| FlashBuffer.MetaRoundTrip | rtos_test/source/flash_buffer.c:148-199 | written metadata validates and comes back |
| FlashBuffer.InterruptedPut | rtos_test/source/flash_buffer.c:389-404 | a power loss between a put's data row and its metadata leaves the old queue, except that a full ring has the new row in place of its oldest |
| FlashBuffer.PowerCycle | rtos_test/source/flash_buffer.c:255-330 | a new instance on the same rows and settings has the old queue after init |
| FlashBuffer.FlashBuffer.Adopt | rtos_test/source/flash_buffer.c:285-315 | init adopts metadata within the capacity, and metadata left by the same capacity brings the queue back |
| FlashBuffer.FlashBuffer.Init | rtos_test/source/flash_buffer.c:255-330 | init adopts what validates and otherwise starts empty |
| FlashBuffer.FlashBuffer.PutRecord | rtos_test/source/flash_buffer.c:332-419 | put appends, gives up the oldest exactly when full with drop_oldest, refuses otherwise, keeps the balance but for refused records |
| FlashBuffer.FlashBuffer.Peek | rtos_test/source/flash_buffer.c:421-468 | peek returns the oldest record, or discards a row that does not validate and counts it dropped |
| FlashBuffer.FlashBuffer.Consume | rtos_test/source/flash_buffer.c:470-499 | consume removes the oldest record and counts it |
| BufferManager.OneQueue | rtos_test/source/buffer_mgr.c:237-284 | moving the oldest RAM record behind the persistent ones makes a put into two tiers a put into one bounded FIFO |
| BufferManager.HoldsMostRecent | rtos_test/source/buffer_mgr.h:92-99 | after any run of puts the store holds the most recent records that fit |
| BufferManager.BufferManager.LateInit | rtos_test/source/buffer_mgr.c:84-120 | the late init puts the persistent records of the last boot in front of RAM |
| BufferManager.PowerCycle | rtos_test/source/buffer_mgr.c:84-120 | a new instance on the same rows has exactly the old persistent records |
| BufferManager.BufferManager.Spill | rtos_test/source/buffer_mgr.c:237-254 | the spill moves the oldest RAM record, or leaves RAM alone |
| BufferManager.BufferManager.PutInTiers | rtos_test/source/buffer_mgr.c:220-297 | what a put does to each tier, failed spills and refused records included, with the exact record balance |
| BufferManager.BufferManager.PutRecord | rtos_test/source/buffer_mgr.c:220-297 | the two tiers are one FIFO of their total capacity; records held, taken out and dropped balance those counted in |
| BufferManager.BufferManager.Peek | rtos_test/source/buffer_mgr.c:312-331 | RAM peek shows the oldest RAM record |
| BufferManager.BufferManager.Consume | rtos_test/source/buffer_mgr.c:333-355 | RAM consume removes exactly it |
| BufferFlush.FlushLoopFlushes | rtos_test/source/buffer_flush.c:110-165 | a loop takes a prefix off its tier, publishes in order what of it can be published, and stops only for one of four reasons |
| BufferFlush.FlushDeliversPrefix | rtos_test/source/buffer_flush.c:95-203 | unless a RAM record overtakes, published records followed by the publishable rest are the publishable queue in its order; at most a batch is published |
| BufferFlush.SteadyKeepsOrder | rtos_test/source/buffer_flush.c:132-137 | intact rows and a client that stays down once it refuses keep the order |
| BufferFlush.OvertakesExactly | rtos_test/source/buffer_flush.c:110-195 | a call publishes a RAM record while a publishable persistent one is left behind if and only if RAM holds something to publish and either the client refuses a record ahead of the first corrupt row and takes the next, or that row ends the loop with batch and client to spare and publishable records behind it |
| BufferFlush.RamOvertakes | rtos_test/source/buffer_flush.c:132-163 | two queues and clients for which that happens |
| BufferFlush.FlushPersistent | rtos_test/source/buffer_flush.c:110-165 | the first loop ends and computes the model's loop |
| BufferFlush.FlushRam | rtos_test/source/buffer_flush.c:167-195 | the second loop ends and computes the model's loop |
| BufferFlush.FlushRecords | rtos_test/source/buffer_flush.c:95-203 | one call delivers a prefix of the one queue |
| Migration.StepKeeps | rtos_test/source/buffer_mgr.c:237-260 | whatever the schedule, a pending migration fixes the tail slot and the queue stays in the order of production |
| Migration.EveryScheduleSafe | rtos_test/source/buffer_mgr.c:237-355 | every schedule from the start keeps the invariant |
| Migration.PeekNotSpilled | rtos_test/source/buffer_mgr.c:312-331 | RAM peek never shows a record that has been spilled |
| Migration.SpillRemovesCandidate | rtos_test/source/buffer_mgr.c:237-254 | the record a completed spill takes out of RAM is the one that was written |
| Migration.ConsumeExactly | rtos_test/source/buffer_flush.c:167-195 | peek, publish and consume remove the published record if and only if no spill completed in between; otherwise a record that was never published is lost |
| Intake.Channel.RingPut | rtos_test/source/emergency_ring.c:33-53 | put appends to the rescue ring unless all but one slot are taken |
| Intake.Channel.RingGet | rtos_test/source/emergency_ring.c:55-74 | get returns and removes the oldest rescued record |
| Intake.Channel.Post | rtos_test/source/gateway_ipc.c:180-212 | a record joins the end of the backlog or is dropped because both are full; a non-empty ring implies a full queue |
| Drain.PostStatus | rtos_test/source/gateway_ipc.c:153-175 | a status record that is dropped leaves an event |
| Drain.PutInternal | rtos_test/source/buffer_mgr.c:220-297 | a put that finds RAM full and spills nothing posts an overflow event behind the other events or drops it with their queue and ring full; any other put posts none |
| Drain.DrainQueue | rtos_test/source/buffer_mgr.c:406-421 | a queue loop ends, empties its queue into the store in order, and posts no event |
| Drain.DrainRing | rtos_test/source/buffer_mgr.c:389-404 | a ring loop does the same for its ring |
| Drain.DrainOnce | rtos_test/source/buffer_mgr.c:491-520 | a drain the store can absorb empties all six sources in order, and the store holds the most recent records |
| Drain.DrainTurns | rtos_test/source/buffer_mgr.c:389-504 | after any number of turns of the six loops, queues, rings and free places have the numbers the counting model has, whatever the persistent tier spills; with a tier that refuses when full, also those that count both tiers |
| Drain.TurnsWithout | rtos_test/source/buffer_mgr.c:389-504 | when nothing is spilled the model is the one of the exact condition below |
| Drain.TurnsAccount | rtos_test/source/buffer_mgr.c:285-504 | with spills taken and refused in any order, records are put in free places, spilled, waiting or lost as events, and a drain still running has taken one turn for each free place, spill, overflow event and loop left |
| Drain.DrainLeavesExactly | rtos_test/source/buffer_mgr.c:491-504 | such a drain that ends leaves, as events in the event queue, exactly the records that neither fitted nor were spilled |
| Drain.DrainEndsExactly | rtos_test/source/buffer_mgr.c:285-504 | by those numbers a drain ends if and only if the free places hold everything up to the event queue and all but one event queue of the rest |
| Drain.DrainEmptiesExactly | rtos_test/source/buffer_mgr.c:491-504 | a drain that ends leaves, as events in the event queue, exactly as many records as did not fit |
| CmdHandler.WithoutNewestAt | rtos_test/source/cmd_handler.c:518-551 | deleting the newest match takes out exactly that element |
| CmdHandler.ShiftOne | rtos_test/source/cmd_handler.c:533-539 | one turn of the compaction moves one id one slot towards the tail |
| CmdHandler.InflightTracker.Check | rtos_test/source/cmd_handler.c:483-497 | the search finds an id exactly when it is tracked |
| CmdHandler.InflightTracker.Add | rtos_test/source/cmd_handler.c:499-516 | add appends unless the id is empty or the tracker is full |
| CmdHandler.InflightTracker.Remove | rtos_test/source/cmd_handler.c:518-551 | the circular compaction is deletion from a sequence |
| CmdHandler.ResponseCache.Lookup | rtos_test/source/cmd_handler.c:447-464 | lookup returns the newest response to the id |
| CmdHandler.ResponseCache.Put | rtos_test/source/cmd_handler.c:466-477 | the cache remembers the last four responses |
| CmdPipeline.StepKeepsExactly | rtos_test/source/mqtt_gw_task.c:917-1067 | every step keeps tracker and pipeline equal, each id once, except a malformed message that reuses an id of the pipeline and whose error is not published |
| CmdPipeline.ConfusionForgets | rtos_test/source/mqtt_gw_task.c:973-1006 | such a message makes the tracker forget a command still in the pipeline |
| CmdPipeline.TrackerNeverShort | rtos_test/source/cmd_handler.h:55-58 | the tracker is full only when the request queue is, so it never turns away a command that could have been queued |
| CmdPipeline.AcceptsExactly | rtos_test/source/mqtt_gw_task.c:1009-1065 | a request is queued if and only if its id is not empty, not among the last four responses, not in the pipeline, and the queue has room |
| CmdPipeline.NotAcceptedAgain | rtos_test/source/mqtt_gw_task.c:1011-1028 | a command is not accepted again, over any interleaving, until four others were answered or its own response was lost |
| CmdPipeline.ResponsesKeeps | rtos_test/source/mqtt_gw_task.c:917-953 | one call answers everything or parks one response, and keeps the invariant |
| CmdPipeline.RunKeeps | rtos_test/source/mqtt_gw_task.c:917-1067 | the invariant holds after every unconfused run |
| CmdTasks.CommandPath.TakeCommand | rtos_test/source/pmbus_poll_task.c:363-367 | the poll task takes the oldest request |
| CmdTasks.CommandPath.FinishCommand | rtos_test/source/pmbus_poll_task.c:363-398 | the response is queued, or dropped with its id untracked when the queue is full |
| CmdTasks.CommandPath.ProcessResponses | rtos_test/source/mqtt_gw_task.c:917-953 | the code takes the steps of the model and keeps the invariant |
| CmdTasks.CommandPath.HandleRequest | rtos_test/source/mqtt_gw_task.c:1009-1065 | the code's four checks decide as the model does |
| CmdTasks.CommandPath.ProcessRaw | rtos_test/source/mqtt_gw_task.c:958-1067 | the raw loop takes the steps of the model and stops only when a response is parked |
| Jsmn.SizesBelow | rtos_test/source/jsmn.h:268-453 | token sizes sum to less than the number of tokens |
| Jsmn.LaidClosed | rtos_test/source/jsmn.h:338-349 | closing the newest open container keeps any two tokens nested or disjoint |
| Jsmn.Parser.ParsePrimitive | rtos_test/source/jsmn.h:135-188 | a primitive is the longest run of printable characters up to a terminator |
| Jsmn.Parser.ParseString | rtos_test/source/jsmn.h:193-263 | a string token lies between two quotes and every quote inside it is escaped; on error the position is restored |
| Jsmn.Parser.CloseContainer | rtos_test/source/jsmn.h:310-360 | a closing bracket ends the newest open container of its kind and makes the one around it superior |
| Jsmn.Parser.Parse | rtos_test/source/jsmn.h:268-453 | parsing ends within bounds; on success the result is the token count, all containers are closed, tokens are nested or disjoint in start order, brackets match |
| Metrics.SortedAscends | rtos_test/source/metrics.c:85-98 | sorting yields an ascending permutation |
| Metrics.SortInPlace | rtos_test/source/metrics.c:85-98 | the insertion sort sorts the front of the array and leaves the rest |
| Metrics.Percentile | rtos_test/source/metrics.c:136-140 | the chosen sample is the smallest that at least 95% of the samples do not exceed |
| Metrics.ComputeStats | rtos_test/source/metrics.c:105-141 | floor average, 95th percentile and maximum of the samples |
| Metrics.LatencyRing.Add | rtos_test/source/metrics.c:67-75 | a ring holds exactly the last 100 samples |
| Metrics.LatencyRing.Compute | rtos_test/source/metrics.c:105-141 | the statistics of a ring are those of its last 100 samples, wherever it starts |
| Metrics.PathTimings.Snapshot | rtos_test/source/metrics.c:283-321 | the exported component averages add up exactly, and the publish component is its own floor average or one more |
| PublishFilter.SignedDeadbandExactly | rtos_test/source/publish_filter.c:25-29 | a signed change is inside the deadband if and only if it is smaller, or wraps around to something smaller |
| PublishFilter.SuppressedIsClose | rtos_test/source/publish_filter.c:42-105 | a suppressed sample has the baseline's mask and every valid field inside its deadband |
| PublishFilter.SuppressedTelemetryAccurate | rtos_test/source/pmbus_poll_task.c:762-801 | over any run a suppressed telemetry sample is that close to the last admitted one and precedes its heartbeat |
| PublishFilter.SuppressedStatusUnchanged | rtos_test/source/pmbus_poll_task.c:873-890 | a suppressed status sample equals the last baseline, or is a suppressed first one |
| PublishFilter.OnlineExactly | rtos_test/source/pmbus_poll_task.c:741-964 | after any run of polls a device is online if and only if a telemetry poll has succeeded and fewer than three have failed since |
| PublishFilter.ReconnectAdmits | rtos_test/source/pmbus_poll_task.c:935-964 | the first telemetry sample of a device, and the first after three failures in a row, is never suppressed |
| PublishFilter.DevicePoller.OfferTelemetry | rtos_test/source/pmbus_poll_task.c:734-801 | the end of the telemetry poll decides and moves the baseline only for records that were taken |
| PublishFilter.DevicePoller.OfferStatus | rtos_test/source/pmbus_poll_task.c:853-903 | the end of the status poll does the same, and records a suppressed first sample |

## Left out

- QspiBuffer.PutRefines: states crash safety for one put from a sound ring; continuing on a device whose last write was torn in the data area is outside the firmware's own promise (README.md:200-201).
- QspiDriver.QspiDriver.PutRecord: after a failed flash operation nothing is said about the device content, only that the counters balance; the failing path of XIP switching is folded into the flash operation.
- BufferManager.BufferManager.PutRecord: is one atomic call; its three critical sections are the subject of Migration.
- BufferManager.BufferManager.LateInit: says nothing about metadata left by another flash_max_records, because clamping each field alone bounds the indices but does not make the ring coherent.
- Drain.DrainOnce: requires that the store absorbs the backlog without an overflow event, and that no producer runs during the drain; for any other store Drain.DrainTurns follows the loops for a given number of turns, and Drain.DrainEndsExactly and Drain.TurnsAccount say whether and how they end.
- CmdPipeline.StepKeepsExactly: each step is atomic, although cmd_inflight_remove may run in either FreeRTOS task without a lock.
- PublishFilter.DevicePoller.OfferTelemetry: takes heartbeats in ticks; the conversion from milliseconds is a FreeRTOS macro.
- PersistentSeq.NextBootExact: does not follow a run past a checkpoint that wrecks the row the durable pair is in; PersistentSeq.WreckedCheckpointExactly says what the next boot finds then.
- Integrity.DamagedRecordRejected: excludes damage that turns both kind byte and length into those of another kind, because the kind decides how many bytes are checked.
- QspiFill.PutUnerased: says nothing more when the head meets the tail inside a sector, which takes a second put over old bytes; and a ring with unerased bytes behind its head is followed for one put, not over runs.
- QspiDelivery.LeftoverLags: follows the ring while the records stay in the sector behind the bytes left over.
- QSPI geometry: sector size, sector count and record sizes are the constants of qspi_buffer.h and buffer_record.h, not parameters.
- Jsmn.Parser.Parse: has a token array; counting without one (tokens == NULL) and inputs of 2^31 bytes or more are not modelled.
- Erase-all calls, flush triggers, event details and metrics counters other than the buffer counters: they only add easy members.
- Wi-Fi, MQTT, SNTP, UART and the FreeRTOS kernel: queues are bounded sequences, a publish is an answer from outside, a critical section is one step.
- I2C controller registers, retries, bus recovery and GPIO: hardware behaviour; the line delivers bytes.
- JSON and topic encoding, PMBus number formats, cmd_handler_parse: a record can be encoded or not, and a raw message parses to one of three results, both given from outside.
- Switching the persistent tier of buffer_mgr.c to the QSPI ring: the two-tier theorems are about the Em_EEPROM tier.
- Board support, scripts, dashboard and profiles: not program logic of the gateway core.
