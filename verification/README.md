# Verification of the recovery, translation, snapshot and diagnostic cores

A Dafny 4.11 model of the parts of the driver whose correctness cannot be read off one function: the
crash-safe records in video memory and the gate and lease that decide when clients are admitted, the GPU
page-table walk and the conversion of entry addresses, the console snapshot bridge, the critical log
pipeline with its strict reader, the search for patch sites, the EDID builder, the display access counter and
register translation, and the preparation of the kernel queue. `dafny verify dfyconfig.toml` checks everything.

How the parts are modelled:

- Video memory is a sequence of dwords. A store is pending until the next fence; a stop leaves, for each
  dword, its durable value or any one pending store to it. Loads of the writer see its own stores unless the
  device misreads them, which is scripted. Every theorem about a record is about all stops, all subsets and
  all orders (`BarStore`, `LifetimeRecord`).
- Concurrency is sequentially consistent interleaving of single loads, stores and exchanges by any number of
  threads (`LifetimeProtocol`, `DiagnosticRecords`, `FaultStore`, `BufferPool` with `ConsoleBridge`). The
  loops of `LifetimeGate` are also verified as loops of one thread among others that interfere between its
  accesses. The callers of the gate follow the roles its return values give them
  (`src/RecoveryLifetime.hpp:182-187`): who begins finishes, and only an abort owner publishes ABORT.
- Code that changes fields or buffers in place is a class or a method over an array, proved against a
  specification function or predicate; the properties are lemmas about that specification. Callbacks,
  registers, clocks and user memory are scripts or functions over which everything is universally quantified.
- Register transactions run against a bank that may answer every read with anything; beside it stands the device
  that an obedient bank would be, which keeps what is written and stops when asked, in some time
  (`QueueBank`).
- Machine integers are naturals with their bounds written out; products, sums and shifts that can wrap or
  truncate do so in the model where the source relies on it. The CRC register, display register words and
  the bytes of the replay stream are bit-vectors.

Results that are not what the source or its comments suggest:

- The span conversion does not always agree with converting its entries one by one. It disagrees exactly
  when the span starts below the physical range and runs into it, which needs overlapping MC and physical
  ranges (`EntryUpdate.SpanRefinesEntriesIff`, `EntryUpdate.OverlappingRangesDisagree`).
- Zero is not an unambiguous failure result of `unique`. A hit whose target is address zero goes unnoticed:
  alone it is answered like no hit at all, and beside one other hit that one is reported as the only one. The
  result is right exactly unless such a hit exists with fewer than two hits above it
  (`SiteLocator.UniqueExact`, `SiteLocator.UniqueMissed`, `SiteLocator.UniqueMisled`).
- The access counter never remembers the key 0xffffffff, whose tag wraps to the empty marker. It answers how
  often that key was noted since another key last took the slot where probing for it stops, which is the true
  number exactly when an empty slot is left and no key took that slot since the first such call. All other keys
  are answered exactly, even when that key is noted in between (`AccessCounter.AnswersAreCounts`,
  `AccessCounter.UntaggableAnswers`, `AccessCounter.UntaggableExact`, `AccessCounter.UntaggableForgotten`).
- An interrupted `clearRecord` can leave a committed state word over a partly zeroed body: it is not a
  commit program (`BarStore.ClearCrashImages`, `BarStore.ClearSafeIff`). A torn lifetime record is never
  accepted for its lease. A torn ACTIVE pool status is accepted as another one exactly when it lost the nonzero
  high half that the two numbers of a pool share: the decrease stays exact and the checksum cancels
  (`ClearedRecords.TornActiveIff`, `ClearedRecords.ActiveClearSafeIff`, `ClearedRecords.TornStatusAccepted`).
- The two bytes that the EDID builder's comment calls "RPH" spell RGP in the five-bit letters of EDID
  (`EdidFields.IdentityDecodes`).
- Flag names are compared in their first 64 characters only, so a longer name is answered as the flag named by
  its prefix (`SettingGrammar.LongNamesAnswerAsPrefix`).
- A table that the walk reads is not always where the entry conversion would put its address: the two differ
  exactly for addresses in the invisible part of a physical range that overlaps the MC range
  (`TableConversion.TablesFollowEntriesIff`).
- Several refusals in the source can never be taken: too many EDID extension blocks, a second overflow check
  when a root is repaired, an overflowing sum of bitfield widths, a failing second pass of the snapshot
  encoder, a fault status with a VMID of 16 or more.

## Model

| member | source | states |
|---|---|---|
| BarStore.CommitStages | src/RecoveryLease.hpp:91-108 | What memory holds durably, holds for the writer and has pending after each prefix of a publication: old record, marker epoch, marked body, complete record |
| BarStore.CommitCrashSafe | src/RecoveryLease.hpp:91-108 | A publication cut after any operation, with any subset of the open epoch landing in any order, leaves the old record, an image that still carries the marker, or the complete new record |
| BarStore.CommitCompletes | src/RecoveryLease.hpp:91-108 | An uncut publication makes exactly the new record durable and readable |
| BarStore.ClearCrashImages | src/RecoveryLease.hpp:78-89 | The images that a clear cut after any operation can leave are exactly those whose every dword is the old one or zero |
| BarStore.ClearSafeIff | src/RecoveryLease.hpp:78-89 | All of them are the old record or uncommitted exactly when the record is uncommitted already or has nothing but its state word |
| BarStore.Bar.PublishRecord | src/RecoveryLease.hpp:91-108 | The loops issue exactly the commit program, after which the whole record is settled; it reports success exactly when every load of the readback returns the word of the record |
| BarStore.Bar.CommitChecked | src/RecoveryLifetime.hpp:123-135 | The same for the lifetime record with its own marker, or the marker epoch alone when the readback of the marker refuses; it reports success exactly when no load of marker or record returns another word |
| BarStore.Bar.ClearRecord | src/RecoveryLease.hpp:78-89 | The loop issues exactly the clearing stores and one fence, and reports success exactly when every load of the readback returns zero |
| ClearedRecords.TornLifetimeRefused | src/RecoveryLifetime.hpp:65-110 | No torn lifetime record passes for another record of its lease, not even in the readback before an ABORT |
| ClearedRecords.TornLifetimeNotConsumed | src/RecoveryLifetime.hpp:94-110 | After an interrupted clear the full check accepts the image exactly when it is the untouched old record |
| ClearedRecords.TornPair | src/RecoveryLease.hpp:169-171 | Two torn numbers still show the exact decrease only if they are untouched or both lost the high half they share |
| ClearedRecords.TornActiveIff | src/RecoveryLease.hpp:78-183 | The accepted images of a torn ACTIVE status are exactly the old one and those in which the numbers of one pool or of both lost a shared high half |
| ClearedRecords.ActiveClearSafeIff | src/RecoveryLease.hpp:78-183 | An interrupted clear of an ACTIVE status yields no other accepted record exactly when no pool has numbers that share a nonzero high half |
| ClearedRecords.TornStatusAccepted | src/RecoveryLease.hpp:78-183 | A concrete pool whose torn status is accepted as another ACTIVE one, for every lease and every other pool |
| ClearedRecords.TornVerdictStays | src/RecoveryLease.hpp:173-183 | Whatever torn status is accepted keeps its state, reason and lease |
| ClearedRecords.TornInvalidIff | src/RecoveryLease.hpp:78-183 | A torn INVALID status is accepted exactly when state and reason are left and the four numbers and the checksum still sum to what they did |
| LeaseRecords.MadeOwnershipValidIff | src/RecoveryLease.hpp:123-148 | The descriptor maker and its checker agree: a made descriptor is valid exactly for a nonzero page-aligned offset whose whole lease fits the visible bytes |
| LeaseRecords.MadePoolStatusValidIff | src/RecoveryLease.hpp:158-183 | A made pool status is valid exactly when ACTIVE comes with no reason and two exact decreases, or INVALID with a known reason |
| LeaseRecords.ValidOwnershipIsMade | src/RecoveryLease.hpp:123-148 | Every accepted descriptor is one the maker makes for its offset and nonce |
| LeaseRecords.CheckedAddIff | src/RecoveryLease.hpp:72-76 | The checked sum is the sum when it fits 64 bits and nothing otherwise |
| LifetimeRecord.AcceptedRecordsAreMade | src/RecoveryLifetime.hpp:65-110 | Under an accepted lease, and under no other, the full check accepts exactly the VALID record of that ownership and pool and its ABORTs with a known reason |
| LifetimeRecord.AbortProceeds | src/RecoveryLifetime.hpp:136-170 | The ABORT made from a VALID record goes ahead over exactly the words of that record |
| LifetimeRecord.ValidProceeds | src/RecoveryLifetime.hpp:114-135 | The made VALID record goes ahead exactly where the state word is zero |
| LifetimeRecord.SingleWordCorruptionRefused | src/RecoveryLifetime.hpp:58-70 | A valid 22-dword record with any one dword changed in any way is refused |
| LifetimeRecord.AttemptKeepsSound | src/RecoveryLifetime.hpp:114-170 | One attempt to publish VALID or ABORT, cut anywhere, never puts a committed state word on a torn record and never moves the state back |
| LifetimeRecord.HistorySafe | src/RecoveryLifetime.hpp:114-170 | After any history of attempts, each cut anywhere, a committed state word sits on one complete record, and a VALID one is the record of one of the attempts |
| LifetimeRecord.HistoryClimbs | src/RecoveryLifetime.hpp:114-170 | Over any history the state only climbs 0, VALID, ABORTING, ABORT; VALID is never replaced by another VALID, ABORT ends the lease of the VALID before it and is final |
| LifetimeRecord.PublishValidLifetime | src/RecoveryLifetime.hpp:114-135 | The routine issues exactly the operations the history theorems are about, and nothing when it refuses |
| LifetimeRecord.PublishAbortLifetime | src/RecoveryLifetime.hpp:136-170 | The same for ABORT, including the readback of the record it replaces |
| LifetimeGate.PackLayout | src/RecoveryLifetime.hpp:276-285 | Phase in the low half, reason in the high half, and zero is the untouched gate |
| LifetimeGate.PackInjective | src/RecoveryLifetime.hpp:276-285 | Phase and reason share one word without loss |
| LifetimeGate.TriesMove | src/RecoveryLifetime.hpp:198-261 | Every exchange any loop attempts raises the phase rank, keeps a recorded reason, and enters Active or PublishingAbort only from the phases the protocol allows |
| LifetimeGate.Gate.BeginValidPublication | src/RecoveryLifetime.hpp:190-196 | With any interference, takes effect at one instant and begins only from the untouched initial word; alone it begins exactly there |
| LifetimeGate.Gate.FinishValidPublication | src/RecoveryLifetime.hpp:198-221 | With any interference the loop ends, and word and result are those of one attempt at one instant; alone it opens the gate of a published record, makes the caller the owner of an abort requested meanwhile, and poisons after a failed publication |
| LifetimeGate.Gate.RequestAbort | src/RecoveryLifetime.hpp:223-249 | The same; with a known reason it never returns with a gate that could still admit clients, an owner leaves its reason in PublishingAbort, and alone an Active gate gives the owner, a publishing one defers and an initial one is poisoned; unknown reasons poison the gate |
| LifetimeGate.Gate.Poison | src/RecoveryLifetime.hpp:286-300 | The same; it always returns with the gate blocked, and alone it poisons exactly the gates that are not blocked yet |
| LifetimeGate.Gate.FinishAbortPublication | src/RecoveryLifetime.hpp:251-261 | The same, for the loop that keeps the word a failed exchange reports; alone it turns a publishing abort into Aborted or Poisoned as its publication went |
| LifetimeProtocol.NextKeeps | src/RecoveryLifetime.hpp:114-300 | Every step of every thread keeps the invariant that ties the gate word, each thread's place and seen word, and the record in memory together |
| LifetimeProtocol.GateSafety | src/RecoveryLifetime.hpp:114-300 | In every interleaving: Active means that memory holds the complete settled VALID record, two threads are never between the stores of publications, at most one call ever owns the abort, and no call loses more than four exchanges |
| LifetimeProtocol.StopAnywhereSafe | src/RecoveryLifetime.hpp:114-300 | Stopping the whole interleaved system in any state leaves the earlier image, an uncommitted one, the complete VALID record, or a complete ABORT of it |
| LifetimeProtocol.AcceptedAbortIsFinal | src/RecoveryLifetime.hpp:198-249 | After any call returned Owner, Deferred or AbortOwner no later state is Active, and the recorded reason is never overwritten |
| LifetimeProtocol.ReturnedRequestIsFinal | src/RecoveryLifetime.hpp:223-249 | In every run, once any request with a known reason has left its loop, whatever it returned, no later state is Active |
| LifetimeProtocol.CompletionOpens | src/RecoveryLifetime.hpp:198-221 | A completed publication that nobody asked to abort meanwhile makes the gate Active in one exchange |
| LifetimeProtocol.ActiveNeverReturns | src/RecoveryLifetime.hpp:172-300 | Once left, Active never comes back |
| LifetimeProtocol.AlwaysAttended | src/RecoveryLifetime.hpp:182-261 | In every state of every run a publication or abort in progress has a thread that is about to finish it |
| LifetimeProtocol.CallsAreBounded | src/RecoveryLifetime.hpp:198-300 | Every call ends after at most 120 steps of its own, whatever the others do; a step is one access of the gate or one store or fence, and a whole readback counts as one |
| RecoveryLease.EarnedIsRechecked | src/RecoveryLease.hpp:314-326 | What the checks before publication accepted, the recheck in finishPoolInit cannot refuse |
| RecoveryLease.NativeSucceededIff | src/RecoveryLease.hpp:403-407 | Success is a one in the low byte, whatever the other bits are |
| RecoveryLease.RecheckedIff | src/RecoveryLease.hpp:314-326 | The recheck holds exactly of a made ACTIVE status with two exact decreases and of an element whose two starts are the full address |
| RecoveryLease.OuterReasonMeans | src/RecoveryLease.hpp:404-425 | Each reason stands for the first of five demands that is not met |
| RecoveryLease.OuterReasonExact | src/RecoveryLease.hpp:411-429 | No reason is given exactly when both pools shrank by the lease at the right element; any other reason makes a valid INVALID record |
| RecoveryLease.LeaseState.FinishPoolInit | src/RecoveryLease.hpp:314-326 | Verified only from PoolInitializing with everything rechecked; otherwise not, and Invalid absorbs |
| RecoveryLease.EstablishPools | src/RecoveryLease.hpp:391-447 | For every behaviour of the callbacks and of outside invalidations: Active with no reason, everything earned and ACTIVE published last, or Invalid with a reason and, unless the epoch is a duplicate, INVALID published last; ACTIVE only while verified, clients authorised only after it, every status with the measured numbers, the lease reserved at its full address; alone, exactly when it succeeds |
| RecoveryLease.Admit | src/RecoveryLease.hpp:428-439 | Verify, publish, authorise, commit, in that order; alone it fails only when a callback refuses |
| RecoveryLease.EstablishBeforeVmm | src/RecoveryLease.hpp:449-473 | The native manager starts exactly once, and only under a valid published descriptor; otherwise the lease is Invalid |
| VmmRange.ReserveIsHighest | src/RecoveryLease.hpp:216-225 | The reservation succeeds whenever an aligned range above address zero fits, and is the highest one |
| VmmRange.PowerOfTwoIff | src/RecoveryLease.hpp:219 | The accepted alignments are the powers of two |
| VmmRange.ReservationsDisjoint | src/RecoveryLease.hpp:216-225 | All ranges ever reserved from one cursor are disjoint |
| VmmRange.PredictedIff | src/RecoveryLease.hpp:227-245 | An arena is predicted exactly where the reservation lies whole in the pool it is taken from |
| VmmRange.DisjointIsBytewise | src/RecoveryLease.hpp:202-210 | The logical disjointness check says exactly that the range is whole in the logical framebuffer and shares no byte with a valid lease |
| VmmRange.UpperArenaClearsLease | src/RecoveryLease.hpp:202-244 | A predicted arena in the upper pool passes the disjointness check against every lease in the lower one |
| PageWalk.WalkPageTables | src/GpuVmDiagnostics.hpp:468-529 | The walk equals its specification; it reads at most depth + 1 times, every read is 8-byte aligned and inside the visible physical window, the entries are what the reads returned, the first lies in the root table and every next one in the table that the one before names, and it is complete exactly at a mapping |
| PageWalk.TableIsReadable | src/GpuVmDiagnostics.hpp:431-441 | An accepted table address has its whole table inside the window |
| PageWalk.TableKeepsPlace | src/GpuVmDiagnostics.hpp:431-441 | An accepted table address stays where it is in the visible window, or keeps its offset from the MC base, and exactly the addresses that have no such place are refused |
| PageWalk.EntryDecodes | src/GpuVmDiagnostics.hpp:443-460 | The flags are their bits of the raw qword, and the address is its bits 47 to 6, or to 12 for a leaf |
| WalkMeaning.WalkExactly | src/GpuVmDiagnostics.hpp:485-527 | The walk answers with exactly the entries that the tables in memory lead through: complete exactly when the last one maps the address, unfinished exactly when it names no table in sight, invalid exactly when the table that is due cannot be read |
| WalkMeaning.WalkStartsIff | src/GpuVmDiagnostics.hpp:468-485 | Nothing is walked for a disabled context, an address outside it or above 48 bits, or a refused root |
| WalkMeaning.RootTableIff | src/GpuVmDiagnostics.hpp:477-486 | A root is accepted exactly when it is below 2^48 with attributes 0, 1 or 5, and the walk starts in the table it names |
| WalkMeaning.ValidApertureIff | src/GpuVmDiagnostics.hpp:416-429 | An aperture is valid exactly when both bases are pages above zero and the visible window fits the MC range and 48 physical bits |
| WalkMeaning.ControlFields | src/GpuVmDiagnostics.hpp:474-496 | Depth, leaf width and shifts are those of the fields of the control word |
| TableConversion.TablesFollowEntriesIff | src/GpuVmDiagnostics.hpp:624-643 | A table that the walk reads is where an entry with its address would be converted to, exactly unless the address also lies in the invisible part of an overlapping physical range |
| TableConversion.TablesFollowEntries | src/GpuVmDiagnostics.hpp:624-643 | With disjoint ranges the two always agree |
| PageWalk.CompleteWalkRecomposes | src/GpuVmDiagnostics.hpp:484-527 | On a complete walk the visited indices times their spans, plus the residue below the last shift, are va minus the context start |
| PageWalk.EntryShiftMirrors | src/GfxHangDump.hpp:125-131 | The hang dump's shift of an entry is the walk's |
| PageWalk.LeafPageMirrorsWalk | src/GfxHangDump.hpp:133-145 | After a complete walk the hang dump's page exists and lies in the last entry's block exactly where the walk's residue says |
| PageWalk.SameBlockSameWalk | src/GpuVmDiagnostics.hpp:468-529 | Every address of the block in which a complete walk ended takes the very same walk |
| EntryUpdate.OverflowGuardExact | src/VmEntryUpdate.hpp:89-99 | The guard refuses exactly the spans whose end passes 64 bits |
| EntryUpdate.SpanRefinesEntriesIff | src/VmEntryUpdate.hpp:55-128 | A converted span agrees with converting every entry of it, without overflow, if and only if it does not start below the physical range and run into it |
| EntryUpdate.DisjointRangesAgree | src/GpuVmDiagnostics.hpp:624-642 | With disjoint MC and physical ranges the two always agree |
| EntryUpdate.OverlappingRangesDisagree | src/VmEntryUpdate.hpp:55-128 | A concrete aperture and span for which they do not |
| EntryUpdate.PreparedTwiceIsPhysical | src/VmEntryUpdate.hpp:55-128 | Preparing a converted span again finds it physical and changes nothing |
| EntryUpdate.DecisionsClassify | tools/classify-run.py:1279-1316 | Every decision passes the arithmetic checks of the run classifier |
| EntryUpdate.ConvertedIff | src/VmEntryUpdate.hpp:55-128 | Exactly which spans are converted |
| EntryUpdate.EntryVerdicts | src/GpuVmDiagnostics.hpp:624-643 | Each verdict of the one-entry conversion by its own condition; only a converted entry moves, by the distance of the bases |
| EntryUpdate.ExaminedVerdicts | src/VmEntryUpdate.hpp:80-128 | Each verdict on a span that can be examined by its own condition |
| EntryUpdate.RefusedVerdicts | src/VmEntryUpdate.hpp:63-99 | Each refusal of a request that cannot |
| EntryUpdate.ConstructedBits | src/VmEntryUpdate.hpp:59-61 | The entry written has exactly the bits of the template and of the decided address |
| EntryUpdate.ProducerTold | src/VmEntryUpdate.hpp:48-53 | The producer is told by the three known return addresses |
| EntryUpdate.ValidRawIff | src/GpuVmDiagnostics.hpp:630-632 | The raw registers are valid exactly when both ranges start above zero, none leaves 48 bits and the MC range is not empty |
| EntryUpdate.UpdateSummarySchedule.ShouldPublish | src/VmEntryUpdate.hpp:167-199 | The loop publishes exactly when a new signal or a passed threshold asks for it, and moves its state on |
| EntryUpdate.AtMost69Publications | src/VmEntryUpdate.hpp:164-199 | Over any history of counts there are at most 69 publications |
| EntryUpdate.FirstSignalPublished | src/VmEntryUpdate.hpp:176-197 | The first count in a signal domain is published at once |
| EntryUpdate.PublishedExactly | src/VmEntryUpdate.hpp:167-199 | After any history, counts are published exactly when their total passes a power of two that no earlier total reached, or a signal domain counts for the first time |
| RootRepair.RelocateFollowsEntry | src/GpuVmDiagnostics.hpp:264-293 | A root moves exactly as a page-table entry with its address does and keeps its attributes; the second overflow check never refuses anything |
| RootRepair.RepairedOnce | src/GpuVmDiagnostics.hpp:268-293 | A repaired root is recognised as physical and never moved again |
| RootRepair.RootRefusals | src/GpuVmDiagnostics.hpp:255-266 | Each refusal that does not look at the address by its own condition |
| RootRepair.RootParts | src/GpuVmDiagnostics.hpp:258-262 | A root is its address in bits 47 to 6 and its attributes outside them, in one way |
| RootRepair.MapEditedIff | src/GpuVmDiagnostics.hpp:228-256 | A map-process packet is edited exactly when it is one, whole, enabled and marked |
| RootRepair.EditedIff | src/GpuVmDiagnostics.hpp:308-345 | A request is edited exactly when enabled, marked, on an admitted hub, for VMID 1 to 15, and reprogramming; each refusal names the first that fails |
| RootRepair.RepairMapProcessPacket | src/GpuVmDiagnostics.hpp:253-294 | The packet is edited in place in its root's eight bytes at most, and only when it is repaired |
| RootRepair.PrepareInvalidateInfo | src/GpuVmDiagnostics.hpp:308-380 | The copy differs from the request in its root at most, by the same rule after the eligibility checks |
| RootRepair.CopiesFollow | src/GpuVmDiagnostics.hpp:264-293 | Each of the two copies of the root arithmetic, with 64-bit wrapping, does what the one specification says; no sum wraps |
| RootRepair.PacketsAgree | src/GpuVmDiagnostics.hpp:253-380 | The two copies of the code give both packets the same root whenever both are eligible |
| BufferPool.PoolKeeps | src/ConsoleBridge.cpp:27-70 | Allocation, failure, mapping, unmapping and release by any threads keep every count equal to its holders, and live, freed and reserved buffers equal to the slot counter, at most four |
| BufferPool.ArmTransfers | src/ConsoleBridge.cpp:277-279 | A successful arm hands the creator's reference to the bridge and takes one more for the connection |
| ConsoleBridge.StepKeeps | src/ConsoleBridge.cpp:225-363 | Every locked region and every step outside the lock keeps the bridge's invariant, whatever the device answers |
| ConsoleBridge.BridgeSafety | src/ConsoleBridge.cpp:27-363 | In every state of every run: at most one owner, whose private buffer is the active one; none once poisoned; each connection owns at most once; acknowledgements are 1, 2, 3, ...; epochs count up, or there is one arm attempt; buffers match slots |
| ConsoleBridge.PoisonIsFinal | src/ConsoleBridge.cpp:242-332 | A poisoned bridge never arms, stores, copies or acknowledges again |
| ConsoleBridge.ClosedNeverOwns | src/ConsoleBridge.cpp:351-363 | A closed connection never becomes owner, even when its arm is still allocating |
| ConsoleBridge.CommitsAreTheOwners | src/ConsoleBridge.cpp:287-332 | Frames are copied only from the owner's own buffer, and only the owner's next number is acknowledged |
| ConsoleBridge.RetireTold | src/ConsoleBridge.cpp:240-252 | Retiring an owner stores the epoch and the stop and nothing else, and poisons unless both are confirmed; without an owner nothing is stored |
| ConsoleBridge.GrantIff | src/ConsoleBridge.cpp:253-286 | A connection is granted exactly when nothing refuses it, the device shows the magic of its mode, is idle and in step, and confirms the arm in the new epoch |
| ConsoleBridge.ArmTold | src/ConsoleBridge.cpp:273-279 | A granted arm stored the next epoch and the start, and nothing else |
| ConsoleBridge.UngrantedIsInert | src/ConsoleBridge.cpp:257-283 | One that is not granted leaves the owner alone and drops its buffer; nothing else changes, or the arm was ambiguous and the device is stopped and the bridge poisoned |
| ConsoleBridge.AckIff | src/ConsoleBridge.cpp:287-332 | A call is acknowledged exactly when its arguments fit, it is the owner of a trusted bridge with the next number, and the device answered state 1, no error, the last and then the new number, and the epoch |
| ConsoleBridge.FrameTold | src/ConsoleBridge.cpp:316-323 | An acknowledged frame was announced, after the epoch, by its width in register 4, its height in register 5 and last its number in register 6 |
| ConsoleBridge.UnackedIsInert | src/ConsoleBridge.cpp:300-331 | A call that is not acknowledged changes nothing, or poisons the bridge and stops the device last |
| ConsoleBridge.CloseTold | src/ConsoleBridge.cpp:351-363 | Closing bars the connection, retires it if it owns the bridge, and drops its buffer on the final close |
| ConsoleBridge.QuietMeansEmpty | src/ConsoleBridge.cpp:27-70 | When nobody holds a buffer and nothing is being freed, every slot is back |
| ConsoleBridge.RaphaelConsole.RetireLocked | src/ConsoleBridge.cpp:240-252 | The in-place updates and register stores are those of the specification |
| ConsoleBridge.RaphaelConsole.SnapshotArm | src/ConsoleBridge.cpp:253-286 | The same, and success exactly when nothing refuses, is ambiguous or is not confirmed |
| ConsoleBridge.RaphaelConsole.SnapshotCommit | src/ConsoleBridge.cpp:287-332 | The same, and the acknowledged number |
| ConsoleBridge.RaphaelConsole.SnapshotClose | src/ConsoleBridge.cpp:351-363 | The same |
| DiagnosticRecords.StepKeeps | src/DiagnosticRecords.hpp:25-61 | Every step of every append and read keeps the invariant: own slots, written prefixes, ready slots complete, readers' copies exact |
| DiagnosticRecords.RecordsSafety | src/DiagnosticRecords.hpp:25-61 | In every interleaving no two appends share a slot, a finished read is the kept text of one append with its NUL, and finished appends are the ready slots and the dropped |
| DiagnosticRecords.QuietTotals | src/DiagnosticRecords.hpp:32-61 | With no append in progress every started one is ready or dropped |
| DiagnosticRecords.TruncatedCounts | src/DiagnosticRecords.hpp:32-47 | In every interleaving the truncation counter is the number of appends past their counting step whose text was too long or came in cut |
| DiagnosticRecords.QuietTruncated | src/DiagnosticRecords.hpp:32-47 | With no append in progress it is the number of ready slots with such a text |
| DiagnosticRecords.ReadProgress | src/DiagnosticRecords.hpp:48-57 | A read starts exactly on a ready slot, copies a byte a step, and ends with its copy at the first NUL and at the width at the latest |
| FaultStore.ScanLearns | src/GpuVmDiagnostics.hpp:171-184 | The claimant's scan finds a duplicate, or shows that the observation is in no ready slot |
| FaultStore.StoreSafety | src/GpuVmDiagnostics.hpp:149-206 | In every interleaving at most one caller is inside, no two ready slots hold equal observations, and the attempts add up |
| FaultStore.QuietTotals | src/GpuVmDiagnostics.hpp:158-206 | Attempts equal stored plus non-client, duplicate, contention and full |
| FaultStore.ReadyIsForever | src/GpuVmDiagnostics.hpp:194-199 | A ready slot never changes again, so a reader copies one whole observation |
| FaultStore.CountsTellTheReason | src/GpuVmDiagnostics.hpp:158-206 | In every run a call counted as non-client is one, as duplicate has its observation stored, as full finds every slot taken by another, and a call gives way only to one that is inside |
| FaultStore.StoredInFirstFree | src/GpuVmDiagnostics.hpp:171-199 | A new observation goes to the lowest free slot |
| FaultStore.VmidIs | src/GpuVmDiagnostics.hpp:149-160 | The process is bits 20 to 23 of the status |
| Checksums.Crc32Update | src/CriticalReplay.hpp:21-28 | The bit loop is the byte-wise fold of the CRC step |
| Checksums.Fnv1a64Update | src/CriticalReplay.hpp:30-36 | The loop, exclusive or and then the multiplication, is the fold of the FNV-1a step |
| Checksums.FnvRecurrence | src/CriticalReplay.hpp:30-36 | The hash starts at the offset basis, and each byte is taken in by exclusive or and then the prime, modulo 2^64 |
| Checksums.FnvOfA | src/CriticalReplay.hpp:30-36 | The published value for the one-letter text |
| CrcRemainder.CrcIsFrameCheck | src/CriticalReplay.hpp:21-28 | The checksum is the frame check sequence of IEEE 802.3, section 3.2.9: the complement of the remainder, modulo the generator polynomial, of the message with its first 32 bits complemented |
| Checksums.FoldJoins | src/CriticalReplay.hpp:150-154 | Hashing piece by piece is hashing the joined bytes once |
| Checksums.OneByteChangesCrc | src/CriticalReplay.hpp:21-28 | Changing any one byte of any message changes its CRC |
| LineWriter.Writer.Character | src/CriticalReplay.hpp:84-88 | The buffer holds exactly what was asked for until it would overflow, and is invalid exactly from then on |
| LineWriter.Writer.Number | src/CriticalReplay.hpp:94-98 | The digit loop writes the fixed-width hexadecimal text |
| LineWriter.UnHexOfHex | src/CriticalReplay.hpp:54-58 | Reading fixed-width lower-case digits gives the number back |
| LineWriter.ReadRender | src/CriticalReplay.hpp:134-172 | A line of fixed-width fields reads back as its numbers, whatever follows it |
| ReplayLines.LineWidths | src/CriticalReplay.hpp:13-16 | A chunk line has 92 characters and two per byte, at most 172; the closing line has exactly 206 |
| ReplayFormat.ChunkLineIs | src/CriticalReplay.hpp:134-148 | A chunk line, character by character |
| ReplayFormat.EndLineIs | src/CriticalReplay.hpp:156-172 | The closing line, character by character |
| ReplayFormat.ChunkHeaderLayout | src/CriticalReplay.hpp:117-132 | Where each number stands, lowest byte first, in what a chunk check covers |
| ReplayFormat.PrintableIs | src/CriticalReplay.hpp:112 | The characters a record may hold run from the space to the tilde |
| ReplayFormat.DomainText | src/CriticalReplay.hpp:195-197 | The nine bytes that the canonical form starts with |
| ReplayFormat.PrefixLayout | src/CriticalReplay.hpp:195-209 | Where each total stands in the canonical form |
| ReplayFormat.RecordLayout | src/CriticalReplay.hpp:211-220 | Where each record stands in it, with its number and length |
| ReplayLines.ChunkRoundTrip | src/CriticalReplay.hpp:134-148 | A chunk line reads back as the chunk it was written for |
| ReplayLines.EndRoundTrip | src/CriticalReplay.hpp:156-172 | The closing line reads back as what it was written for, and is never taken for a chunk |
| ReplaySnapshot.PartsJoin | src/CriticalReplay.hpp:222-235 | The parts of a record, joined by number, are the record |
| ReplaySnapshot.CarriesParts | src/CriticalReplay.hpp:211-236 | What reads as a chunk among the lines is exactly the parts of the records |
| ReplaySnapshot.RecordsRoundTrip | src/CriticalReplay.hpp:174-245 | A reader recovers every record from the lines alone, number of parts included, in any order and with any repetitions |
| ReplaySnapshot.EndTellsTotals | src/CriticalReplay.hpp:195-245 | The closing line declares the number of chunk lines, the totals, and both checksums of the canonical bytes hashed at once |
| ReplaySnapshot.CorruptionNoticed | src/CriticalReplay.hpp:117-132 | A payload changed in one byte no longer matches its chunk's check value |
| ReplaySnapshot.WireFits | src/CriticalUart.hpp:107-108 | Every line keeps its limit and the whole snapshot keeps the stated wire limit |
| ReplayEncoder.DecodeBuildId | src/CriticalReplay.hpp:60-71 | Accepts exactly 32 lower-case hexadecimal digits, and gives their bytes |
| ReplayEncoder.LengthIs | src/CriticalReplay.hpp:108-115 | A stored record has a length exactly when a NUL follows printable characters only, and it is where that NUL stands |
| ReplayEncoder.RecordLength | src/CriticalReplay.hpp:108-115 | Finds the NUL that ends a printable text, or refuses |
| ReplayEncoder.FormatLine | src/CriticalReplay.hpp:134-172 | Succeeds exactly when the rendered line fits its limit, and then is that line |
| ReplayEncoder.Preflight | src/CriticalReplay.hpp:182-193 | Passes exactly when every slot can be sent, and then has the totals |
| ReplayEncoder.EmitSnapshot | src/CriticalReplay.hpp:174-245 | Succeeds exactly for at most 512 sendable records and a proper build identity, and then emits exactly the lines of the snapshot; otherwise it emits nothing |
| ReplayReader.ReadsExactly | tools/critical-replay.py:70-243 | Whatever lines are received, the strict reader accepts them as a snapshot exactly when they carry its parts and its closing line and nothing else, it reports no loss and its records are printable |
| ReplayReader.ReadsWhatWasSent | docs/critical-replay-v2.md:72-79 | The lines of such a snapshot are read back as that snapshot, in any order and with any repetitions |
| ReplayReader.EncodedIsRead | src/CriticalReplay.hpp:174-245 | What the encoder accepts without loss, the reader reads back as exactly the stored texts |
| ReplayReader.ReadsOne | docs/critical-replay-v2.md:72-79 | No set of lines is read as two snapshots |
| ReplayReader.IncompleteRefused | docs/critical-replay-v2.md:72-79 | With any line of a snapshot missing the reader accepts nothing |
| ReplayReader.AlteredRefused | docs/critical-replay-v2.md:72-79 | With a payload changed in one byte the reader accepts nothing, whatever else is received |
| ReplayReader.WellSplitParts | tools/critical-replay.py:90-108 | Parts of which only the last is short are the parts of what they join to |
| QuiesceMatcher.AdvanceExact | src/CriticalUart.hpp:167-181 | Falling back to one character is exact for every token whose first character occurs nowhere else in it |
| QuiesceMatcher.OccursOneMore | src/CriticalUart.hpp:167-181 | An occurrence in a longer stream is an old one or ends with the new character |
| QuiesceMatcher.CriticalUart.Initialize | src/CriticalUart.hpp:112-134 | Clears the match unless a request is latched, and succeeds exactly on the expected readbacks |
| QuiesceMatcher.CriticalUart.PollQuiesceRequest | src/CriticalUart.hpp:165-184 | After any polls the request is latched exactly when the token occurs in what was received; a poll takes the next bytes and stops early only for want of bytes or on a complete token |
| SiteLocator.Matches | src/KernelSiteLocator.hpp:22-28 | The masked comparison, with its bounds |
| SiteLocator.HitIff | src/KernelSiteLocator.hpp:22-28 | A pattern stands exactly where it fits and every bit in which the image differs from it is outside its mask |
| SiteLocator.Unique | src/KernelSiteLocator.hpp:49-60 | The result is the target of the only hit whose target is not zero, and zero when there is not exactly one |
| SiteLocator.UniqueExact | src/KernelSiteLocator.hpp:47-60 | For every image that fits the address space the result is the only match's target, and zero exactly when there is not exactly one, if and only if no match stands for address zero, or two more matches lie above it |
| SiteLocator.UniqueAboveZero | src/KernelSiteLocator.hpp:47-60 | For an image above address zero it always does |
| SiteLocator.UniqueMissed | src/KernelSiteLocator.hpp:47-60 | A concrete image whose only match is answered like an image without any |
| SiteLocator.UniqueMisled | src/KernelSiteLocator.hpp:47-60 | A concrete image with two matches of which the second is reported as unique |
| SiteLocator.Resolve | src/KernelSiteLocator.hpp:61-80 | Without a symbol the whole range is searched for the unique match, with a scope only the scope; otherwise the result is the symbol's exact place, exactly when the pattern stands there in range; a symbol or scope outside the range gives nothing |
| SiteLocator.Covers | src/KernelSiteLocator.hpp:29-35 | The whole contract stands around the target with room for the bytes |
| SiteLocator.PatchDelta | src/KernelSiteLocator.hpp:36-46 | Accepts exactly when the bytes to be changed are the audited ones, overlays only those, and leaves the output alone otherwise |
| SiteLocator.PatchRoundTrip | src/KernelSiteLocator.hpp:38-46 | The reverse patch is accepted and restores the live bytes |
| SiteLocator.PatchOnce | src/KernelSiteLocator.hpp:38-46 | A second application is refused unless nothing changes |
| SiteLocator.PatchSpan | src/TextureDiagParser.hpp:105-117 | The smallest span that holds every changed byte |
| ChunkScan.ChunkShows | src/TextureDiagParser.hpp:264-279 | A chunk shows a pattern exactly where the whole image does, across every chunk border |
| ChunkScan.Scan | src/TextureDiagParser.hpp:259-293 | The chunked scan finds an address exactly when every chunk is readable and all matches of all alternatives in the whole code name that one address |
| ChunkScan.AgreesWithUnique | src/KernelSiteLocator.hpp:49-60 | With one pattern it agrees with the unique search |
| ChunkScan.DiscoverDynamic | src/TextureDiagParser.hpp:231-318 | Every discovery is the decision about the instruction at the one target, and every admissible readable target is discovered |
| ChunkScan.DecideClears | src/TextureDiagParser.hpp:297-305 | A setting is cleared exactly in a load of a 64-bit immediate into RAX, counts as done exactly when its bit is clear, and keeps the opcode and every other bit |
| ChunkScan.DecideReplaces | src/TextureDiagParser.hpp:306-312 | A whole instruction is replaced exactly when it or its replacement is there, and the two marks say which |
| ChunkScan.AdmissibleIff | src/TextureDiagParser.hpp:235-247 | The searches that are admissible: some code, 32 MiB at most, one to seventeen patterns that each contain the whole instruction |
| ChunkScan.ReadableIff | src/TextureDiagParser.hpp:226-229 | What may be read lies between the null page and the end of the user half |
| ChunkScan.ClearedExactly | src/TextureDiagParser.hpp:297-305 | The replacement clears exactly the setting's bit, and equals the live bytes exactly when it is already clear |
| SettingLayout.BitFromLayout | src/TextureSettingLocator.hpp:51-93 | The scanning loops compute the specified reading of the run |
| SettingLayout.DeriveBit | src/TextureSettingLocator.hpp:95-121 | Each status exactly characterised over all runs of the section: success exactly when all parse, one names the flag, and those that do agree on a bit in the word; otherwise the first run that fails or conflicts decides |
| SettingLayout.DerivesOne | src/TextureSettingLocator.hpp:95-121 | Every section has exactly one status and one bit that fit this |
| SettingLayout.ParseInvertsPrint | src/TextureSettingLocator.hpp:51-93 | Parsing any printed layout, whatever follows it, gives the layout's meaning |
| SettingGrammar.ParsesExactly | src/TextureSettingLocator.hpp:51-93 | Any text parses exactly when it is spelled by quoted names with decimal widths up to something that is not such a field, and then it means what they mean |
| SettingGrammar.LongNamesAnswerAsPrefix | src/TextureSettingLocator.hpp:59-81 | A flag whose name has more than 64 characters is answered as the one named by its first 64 |
| SettingLayout.MeaningIsSum | src/TextureSettingLocator.hpp:81-92 | The meaning of a unique one-bit flag is the sum of the widths before it |
| SettingLayout.MeaningRefuses | src/TextureSettingLocator.hpp:79-86 | Repeated flags, wide flags and more than 4096 fields are refused |
| SettingLayout.DeriveInvertsPrint | src/TextureSettingLocator.hpp:95-121 | On any section of printed layouts the derived bit is that sum, or the flag is too far out |
| EdidTiming.BlankIsLongEnough | src/VirtualEdid.hpp:19-37 | The vertical blank really lasts 460 microseconds, in spite of three integer divisions |
| EdidTiming.BlankIsLeast | src/VirtualEdid.hpp:25-32 | It is the least such: beyond fifteen lines, one line less of the rounded period falls short |
| EdidTiming.ClockIsPixelRate | src/VirtualEdid.hpp:30-36 | Width, height and rate are kept, and the clock is the pixels of one second, blanking included, rounded down to kilohertz |
| EdidTiming.TimingFits | src/VirtualEdid.hpp:19-37 | A timing exists exactly for the admitted modes, and every value fits its field |
| EdidTiming.DtdRoundTrip | src/VirtualEdid.hpp:48-68 | A detailed timing decodes to the timing it was written for |
| EdidTiming.DisplayIdRoundTrip | src/VirtualEdid.hpp:70-84 | A DisplayID timing decodes to the timing and mark it was written for |
| EdidImage.PlanIsValid | src/VirtualEdid.hpp:136-190 | At least one mode is in the base block, so three extension blocks always suffice |
| EdidImage.EachModeOnce | src/VirtualEdid.hpp:134-204 | Every mode has exactly one descriptor |
| EdidImage.BaseModesDecode | src/VirtualEdid.hpp:140-144 | Each detailed timing of the built EDID decodes to its mode's timing |
| EdidImage.ExtModesDecode | src/VirtualEdid.hpp:193-237 | Each extension timing decodes to its mode's timing, and exactly the very first one is preferred |
| EdidFields.IdentityDecodes | src/VirtualEdid.hpp:119-128 | Maker, product, serial number, date, version, input, size and gamma read back from the base block |
| EdidFields.PanelSizeDecodes | src/VirtualEdid.hpp:48-68 | Each detailed timing carries the panel size |
| EdidFields.ParametersDecode | src/VirtualEdid.hpp:212-225 | The display parameters carry it in tenths, with the pixels of the panel |
| EdidFields.MillimetresRound | src/VirtualEdid.hpp:93-99 | A length is rounded to the nearest millimetre at 32 pixels to 5 mm |
| EdidFields.AspectHundredths | src/VirtualEdid.hpp:219 | The aspect byte is the hundredths above one to one, modulo 256 |
| EdidFields.AspectMeans | src/VirtualEdid.hpp:74-77 | The four aspect codes stand for four different ratios and eight for none |
| EdidFields.NativeFlag | src/VirtualEdid.hpp:146-154 | The preferred timing is called native exactly when some detailed timing has the size of the panel |
| EdidFields.LimitsAdmitAll | src/VirtualEdid.hpp:158-181 | Every mode lies within the range limits declared, unless they are at the end of what their fields hold |
| EdidFields.LimitsAreNeeded | src/VirtualEdid.hpp:158-181 | And they are no wider than the usual ones unless some mode needs it |
| EdidFields.LimitsInPlace | src/VirtualEdid.hpp:158-181 | They stand in the fourth descriptor of a built EDID |
| EdidImage.SectionSumsToZero | src/VirtualEdid.hpp:233-235 | Every DisplayID section sums to zero |
| EdidImage.BuiltIsValid | src/HdmiFrlEdid.hpp:7-17 | Every built EDID passes the HDMI reader's size, pattern, count and checksum checks |
| EdidBuild.Build | src/VirtualEdid.hpp:107-239 | The in-place builder succeeds exactly for one to sixteen admitted modes of which one fits a detailed timing, and then every byte of the buffer is determined |
| EdidBuild.WriteExtension | src/VirtualEdid.hpp:195-237 | One extension block: the next five modes, its headers, marks and both checksums |
| AccessCounter.Counter.Note | src/DcnTranslation.hpp:44-57 | The probing loop does what the table specification says |
| AccessCounter.NoteAgrees | src/DcnTranslation.hpp:44-57 | One call on a table that agrees with a map answers what the map answers and agrees again |
| AccessCounter.AnswersAreCounts | src/DcnTranslation.hpp:36-64 | For any table size, any mixing of the key and any calls, every key but 0xffffffff is answered exactly how often it was noted, or zero when it was refused |
| CounterAdmission.AdmittedExactly | src/DcnTranslation.hpp:44-57 | A key is admitted, for good, exactly when the table was less than three quarters full of other noted keys before its first call |
| CounterAdmission.AnswerFromCalls | src/DcnTranslation.hpp:36-64 | So every answer follows from the calls alone |
| AccessCounter.RefusedForever | src/DcnTranslation.hpp:49-50 | A key first seen with three quarters of the slots taken is refused then and in every later call |
| AccessCounter.RememberedForever | src/DcnTranslation.hpp:47-54 | A key seen while there is room stays remembered |
| AccessCounter.AdmittedBound | src/DcnTranslation.hpp:49-53 | No more keys are admitted than the three-quarters rule allows |
| AccessCounter.UntaggableAnswers | src/DcnTranslation.hpp:44-57 | In every sequence of fewer than 2^32 calls a call with 0xffffffff answers how often it was noted since another key last took its slot |
| AccessCounter.UntaggableExact | src/DcnTranslation.hpp:44-57 | In every such sequence it answers its true number of calls exactly when an empty slot is left and no key took its slot since its first call |
| AccessCounter.UntaggableForgotten | src/DcnTranslation.hpp:45-54 | A concrete sequence of calls in which that key is answered 1 and then 0 |
| DcnRegisters.Translate | src/DcnTranslation.hpp:19-30 | The binary search answers by the index's entry, and passes an index that has none unchanged |
| DcnRegisters.RemapWrite | src/DcnTranslation.hpp:87-95 | The loop moves the fields one after the other into the current word |
| DcnRegisters.RemapRead | src/DcnTranslation.hpp:97-104 | The loop collects the fields one after the other |
| DcnRegisters.LastFieldWins | src/DcnTranslation.hpp:87-95 | Every written bit comes from its place in the old layout, by the last field that covers it |
| DcnRegisters.WriteKeeps | src/DcnTranslation.hpp:85-95 | Bits of the new register that no field covers keep their current value |
| DcnRegisters.CollectedBit | src/DcnTranslation.hpp:97-104 | A bit is read as set exactly when some field that holds it is set in the new register |
| DcnRegisters.ReadsBackWritten | src/DcnTranslation.hpp:87-104 | With fields whole in both words and apart in the new one, a written value reads back, bit by bit, wherever the old layout has a field, over any current register |
| DcnRegisters.WritingBackChangesNothing | src/DcnTranslation.hpp:87-104 | With fields whole in both words and apart in the old one, writing back what was read changes no bit of the register |
| QueuePreparation.PrepareQueueForNativeStart | src/KiqQueuePreparation.hpp:222-299 | Against any answers: waits at most the timeout, never writes what is not safe in its place, each status explains the last snapshot, Ready only on a final reachable, closed, idle, zero-pointered one. An obedient device is left with ingress masked off, and ends Ready, stopped and reset, exactly when it stops in time, with no longer a wait than it needs; otherwise it is only asked to stop |
| QueuePreparation.StopQueue | src/KiqQueuePreparation.hpp:253-268 | Asks the queue to stop and polls in bounded total time, with ingress off throughout; an obedient device ends as one that was asked and waited for so long |
| QueuePreparation.ResetPointers | src/KiqQueuePreparation.hpp:270-298 | Zeroes pointers only on a queue last seen quiet, and reports what the final snapshot shows; an obedient closed queue ends Ready and reset |
| QueuePreparation.SafeWrites | src/KiqQueuePreparation.hpp:222-299 | A write that is safe in its place keeps the whole log safe |
| QueuePreparation.Masks | src/KiqQueuePreparation.hpp:238-239 | The two masks clear bit 30 and bit 31 and no other |
| QueuePreparation.AccessibleIff | src/KiqQueuePreparation.hpp:178-183 | A snapshot is accessible exactly when no register reads as all ones |
| HaltedTransaction.Transaction.BeginHaltedNative | src/KiqQueuePreparation.hpp:63-115 | Not held means nothing written or the saved word read back; success means verifiably halted and reset; a held failure means that the restoring readback differed. An obedient microengine is held, with its queue zeroed, exactly when its words read back and its queue is closed, and is given back otherwise |
| HaltedTransaction.HaltBits | src/KiqQueuePreparation.hpp:18 | Halting sets bits 28 and 30 of the control word and no other |
| HaltedTransaction.Transaction.ReleaseHaltedNative | src/KiqQueuePreparation.hpp:117-136 | Released only after a verified start with the saved word read back, otherwise left halted and held; an obedient one is released exactly then |

## Left out

- LifetimeProtocol.GateSafety: weak memory orders are not modelled; atomics are sequentially consistent and a fence makes earlier stores durable.
- DiagnosticRecords.RecordsSafety: the 64-bit counters do not wrap, so runs of 2^64 appends are not covered.
- FaultStore.StoreSafety: the counters are unbounded.
- ConsoleBridge.BridgeSafety: the unmapped-registers case is part of "not available"; mode setting, timing reports and mapping cache options are not modelled, and the pixels themselves are reduced to which buffer they are copied from.
- RecoveryLease.EstablishBeforeVmm: the append callback's bookkeeping is reduced to the offset it returns.
- LifetimeRecord.PublishValidLifetime: loads by the publisher may misread, but stores and fences take effect as issued.
- BarStore.Bar.PublishRecord: a store that the device drops is not modelled, so the readback only guards against what loads return.
- ReplayReader.ReadsExactly: one snapshot at a time; the order of several snapshots, the prefix rule between them, the line prefix of the log, the input limits and the tolerant mode are not modelled.
- PageWalk.WalkPageTables: the report text built from a walk is not modelled.
- ChunkScan.DiscoverDynamic: the process memory is one fixed function during the scan, the section offsets do not wrap (the Mach-O checks before the call bound them), and the setting's bit is a parameter; Mach-O header walking is not modelled.
- SettingLayout.DeriveBit: the blob is a sequence of characters; memory comparison past its end is excluded by the bounds of the loops.
- EdidImage.BuiltIsValid: CTA blocks, which the builder never writes, and the rate they may advertise are not part of this model.
- EdidBuild.Build: the contents of the buffer after a refused build are not stated.
- ReplayEncoder.EmitSnapshot: records are immutable between the two passes, as the append-only store guarantees; the line sink never fails.
- AccessCounter.AnswersAreCounts: sequences of 2^32 calls and more, after which a count wraps, are not covered.
- QuiesceMatcher.CriticalUart.PollQuiesceRequest: register stores of the UART setup, byte timeouts and the transmitting side are not modelled.
- QueuePreparation.PrepareQueueForNativeStart: a delay lasts as long as it says.
- VmmRange.UpperArenaClearsLease: an arena in a single pool is checked by the driver at run time; nothing general holds for it.
- DcnRegisters.Translate: the translation tables themselves are data; they are assumed sorted, and field lists to have shifts below 32.
- The site catalogs, the single-register helpers of the display core, and the DCN, MMHUB, SDMA and SMU register constants: data, with easy claims only.
- The fixed mailbox sequences for platform power, display idle power, DMUB and TMR: straight-line constants.
- IOKit plumbing, timers, work loops and user-client creation: foreign calls.
- The Python tools, except the arithmetic of the run classifier and the strict replay reader cited above: file and process handling.
