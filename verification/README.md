# Verified model of the Phantom Trails detection harness

Phantom Trails fuzzes a simulated processor for transient-execution leaks. Its harness runs each program
twice: on an architectural simulator, which tells which bytes the program may know, and on a
cycle-accurate simulation whose memory carries taint on every other byte. This project models the
stateful parts of that harness in Dafny and proves what each of them promises over whole runs.

| file | what it models |
|---|---|
| `SimMem.dfy` | the AXI memory: one clock tick, the strobed write, the object |
| `AxiRuns.dfy` | whole runs of the memory: reads, write responses, bytes |
| `AxiBursts.dfy` | write bursts read back; the byte lanes of AMBA AXI (ARM IHI 0022E, section A3.4); the write as coded |
| `FakeDram.dfy` | the registered wrapper: handshakes, stability, end-to-end reads, addresses |
| `Recorders.dfy`, `Repeats.dfy` | the load, store and fetch recorders, and the repeat counter of both stuck detectors |
| `ArchSim.dfy` | the processor hooks, the recorders at work, the architectural run and its results |
| `Simulator.dfy` | loading the image and choosing the secret bytes |
| `SecretInference.dfy` | non-interference of the secret bytes, for every deterministic program |
| `Rob.dfy`, `Flushes.dfy`, `Classification.dfy` | reorder-buffer attribution, flush decoding, crash records and labels |
| `Detector.dfy`, `Driver.dfy` | the detection loop, the labels over whole runs, the loop over taint sources |
| `Bits.dfy`, `Wrappers.dfy` | words, masks and division facts; optional values |

The simulated core is an arbitrary function from cycle numbers to signals, the instruction-set simulator
an arbitrary function from steps to events, and a simulated program an arbitrary function from everything
read so far to the next access. Sizes (memory, word, buffer rows, instruction limit) are parameters.
Objects the source updates in place are classes; each method's contract ties the new state to a function,
and the lemmas are about these functions.

## Where the code and its promises part

The model follows the code. Where a promise fails, a lemma gives the exact condition or a concrete input.

* **Strobed write.** The write copies bytes of the memory's own first word instead of bus bytes
  (`SimMem.cc:54`), and its call passes strobe and size in the opposite order to the declaration
  (`SimMem.cc:120`). `Config.rule` selects the declared behaviour or the coded one; the run, handshake and
  queue theorems hold for both. `CodedBeatMeetsContract` gives the exact condition for a beat, call and body
  together, to do what is declared, and `CodedBodyMeetsContract` the one for the body alone;
  `CodedBeatChangesOneLane` says what a coded beat does instead, and that it never stores bus data is
  `CodedBeatIgnoresBus`. `CodedBeatExample` and `SwappedCallExample` are inputs.
* **Unaligned bursts.** The beat address advances from the unaligned start, so `BurstFollowsAxi` holds
  exactly for aligned starts, single beats, and the 64-byte size whose lanes are not masked;
  `UnalignedExample` is an input, and `BurstStoresTransfers` says what the beats of a run then store.
* **First clock after a reset.** The wrapper's registers say "not ready" while the memory already answers:
  `FirstClockAfterReset` states exactly when the two sides agree, `FirstClockExample` is an input, and
  `ResetKeepsPending` says that responses survive.
* **Region skip.** The loader compares an absolute address with a size (`main.cc:125`):
  `SkipMissesInitCode` states exactly when the skip does what it means to. A region in the initialisation
  code is loaded from a file offset that wraps around: `OffsetInFileIff`, `SkipExample`.
* **Full reorder buffer.** When head and tail share a row, the head row is visited twice and its only
  writer is counted as two: `OnlyWriterBlamedIff` states exactly when the only writer is blamed,
  `FullBufferExample` is an input. When nobody is blamed, the loop tracks the first slot of the buffer,
  whatever it holds: `TrackedSlotAtFirst`.
* **Near jumps** are computed with wrapping sums: `TooNearIffWithinEight`. **Device accesses** overwrite
  the flag of earlier ones: `DeviceFlagIsLastAccess`. **Stores** are judged by their first byte:
  `StoreStartSuffices` states exactly when that is enough.
* **Mispredicted branch.** `MispredictedBranch` states exactly when the entry taken is a mispredicting one;
  `MispredictedBranchExample` is an input.
* **Partial resets.** The recorder and simulator resets keep their repeat counters (`Reset` contracts);
  the loop theorems hold for any counter, `StuckIffRepeat` counting it as part of the history, and a recorder
  that was stuck stays so (`StuckStays`). The architectural simulator's reset builds a new processor without
  attaching the recorders to it, so the second pass of a campaign finds addresses exactly when the program
  touches a device (`ResetRunFindsDevicesOnly`), and is dropped without a report otherwise
  (`DroppedSecondPass`). A memory tick with reset empties the two queues but keeps the burst in flight; the
  wrapper never passes its reset on.
* **Device flag.** It is not initialised; left set, it discards programs that touch no device
  (`UninitialisedFlagDiscards`).
* A kept program that accesses no data has an empty address list and is dropped like a discarded one
  (`RunSpikeSim`). An architectural taint and one never explained share the label `No_flush`
  (`LabelsOfVerdicts`).

## Model

| member | source | states |
|---|---|---|
| `SimMemory.SimMem.constructor` | BOOM/boom-wrapper/src/main/resources/csrc/dpi/SimMem.cc:23-36 | a new memory is idle, with empty queues |
| `SimMemory.SimMem.Write` | BOOM/boom-wrapper/src/main/resources/csrc/dpi/SimMem.cc:43-57 | exactly the lanes that are strobed and lie in the transfer change, under either rule; every other byte stays |
| `SimMemory.SimMem.QueueBurst` | BOOM/boom-wrapper/src/main/resources/csrc/dpi/SimMem.cc:98-105 | an accepted AR appends its burst, read from the current bytes |
| `SimMemory.SimMem.AcceptBeat` | BOOM/boom-wrapper/src/main/resources/csrc/dpi/SimMem.cc:119-129 | one beat is stored; the response is queued with the last one and the burst leaves flight |
| `SimMemory.SimMem.Tick` | BOOM/boom-wrapper/src/main/resources/csrc/dpi/SimMem.cc:87-148 | the whole new state of a tick, including reset; the two asserts are demands on the master |
| `SimMemory.BeatOffset` | BOOM/boom-wrapper/src/main/resources/csrc/dpi/SimMem.cc:99-102 | every word a read burst touches is aligned and inside the memory, wrap-around included |
| `AxiRuns.BurstShape` | BOOM/boom-wrapper/src/main/resources/csrc/dpi/SimMem.cc:98-105 | arLen + 1 beats, the request's id, last on the final beat only, beat k the k-th word from the aligned start |
| `AxiRuns.ReadsRefineAtomicMemory` | BOOM/boom-wrapper/src/main/resources/csrc/dpi/SimMem.cc:87-136 | beats popped and queued are, in order, one burst per accepted AR over an atomic memory holding all earlier W beats |
| `AxiRuns.AwAndWExclude` | BOOM/boom-wrapper/src/main/resources/csrc/dpi/SimMem.h:46-47 | AW and W are never accepted in one tick |
| `AxiRuns.WriteConservation` | BOOM/boom-wrapper/src/main/resources/csrc/dpi/SimMem.cc:91-136 | accepted AW ids are those answered, queued and in flight, in order; beats owed are beats stored plus the count left |
| `AxiRuns.Run` | BOOM/boom-wrapper/src/main/resources/csrc/dpi/SimMem.h:75-81 | over every reset-free run, in flight means beats outstanding, and the memory keeps its size |
| `AxiRuns.MemoryIsBeats` | BOOM/boom-wrapper/src/main/resources/csrc/dpi/SimMem.cc:119-122 | the bytes after a run are those of the start with the accepted beats written over them |
| `AxiRuns.ByteAfterBeats` | BOOM/boom-wrapper/src/main/resources/csrc/dpi/SimMem.cc:43-57 | a byte holds what the last beat covering it stored, or its old value |
| `AxiRuns.BeatAddresses` | BOOM/boom-wrapper/src/main/resources/csrc/dpi/SimMem.cc:119-128 | the beats of one burst go to successive addresses and end with the count |
| `AxiBursts.BurstRoundTrip` | BOOM/boom-wrapper/src/main/resources/csrc/dpi/SimMem.cc:108-129 | a word-sized burst written beat by beat, whatever else the bus does, reads back lane by lane; nothing else changes |
| `AxiBursts.BurstFollowsAxi` | BOOM/boom-wrapper/src/main/resources/csrc/dpi/SimMem.cc:48-49 | every byte a legal master may strobe is reached if and only if the start is aligned, or there is one beat, or the size is 64 |
| `AxiBursts.CoversIffReaches` | BOOM/boom-wrapper/src/main/resources/csrc/dpi/SimMem.cc:48-56 | to be reached by a beat and strobed is to be stored, up to the memory size |
| `AxiBursts.BurstStoresTransfers` | BOOM/boom-wrapper/src/main/resources/csrc/dpi/SimMem.cc:119-129 | over a run, in the cases above, each beat stores exactly the strobed bytes of its AXI transfer |
| `AxiBursts.UnalignedExample` | BOOM/boom-wrapper/src/main/resources/csrc/dpi/SimMem.cc:121 | a concrete unaligned burst and a byte it misses |
| `AxiBursts.CodedBeatMeetsContract` | BOOM/boom-wrapper/src/main/resources/csrc/dpi/SimMem.cc:120 | a beat as coded, swapped call included, does what a declared one does if and only if each lane comes out the same |
| `AxiBursts.CodedBeatChangesOneLane` | BOOM/boom-wrapper/src/main/resources/csrc/dpi/SimMem.cc:120 | a coded beat of size 2^k changes at most lane k of its word, to lane k of the first word, and only if the strobe, taken for a size, covers it |
| `AxiBursts.CodedBodyMeetsContract` | BOOM/boom-wrapper/src/main/resources/csrc/dpi/SimMem.cc:51-56 | the coded body alone meets the declaration if and only if the strobed bytes already stand in the first word |
| `AxiBursts.CodedBeatIgnoresBus` | BOOM/boom-wrapper/src/main/resources/csrc/dpi/SimMem.cc:120 | as coded, no beat carries bus data into the memory |
| `AxiBursts.CodedBeatExample` | BOOM/boom-wrapper/src/main/resources/csrc/dpi/SimMem.cc:43-57 | a concrete beat that is lost, and one that trips the assertion |
| `AxiBursts.SwappedCallExample` | BOOM/boom-wrapper/src/main/resources/csrc/dpi/SimMem.cc:120 | a concrete beat that only the swapped call loses |
| `FakeDram.FakeDram.Posedge` | BOOM/boom-wrapper/src/main/resources/vsrc/FakeDRAM.v:141-179 | the registers and the memory after a clock edge, in reset and out of it |
| `FakeDram.ReadClock` | BOOM/boom-wrapper/src/main/resources/csrc/dpi/FakeDRAM.cc:37-53 | what a clock does to the read queue, over the master's signals |
| `FakeDram.WriteClock` | BOOM/boom-wrapper/src/main/resources/csrc/dpi/FakeDRAM.cc:37-53 | what a clock does to the burst in flight and the bytes, over the master's signals |
| `FakeDram.SignExtend32` | BOOM/boom-wrapper/src/main/resources/csrc/dpi/FakeDRAM.cc:17-41 | a 32-bit address and its widening are the same signed number |
| `FakeDram.HandshakesAgree` | BOOM/boom-wrapper/src/main/resources/vsrc/FakeDRAM.v:154-178 | from the second clock after a reset, each channel moves inside the tick if and only if the master sees valid and ready |
| `FakeDram.FirstClockAfterReset` | BOOM/boom-wrapper/src/main/resources/vsrc/FakeDRAM.v:142-154 | on the first clock the sides agree if and only if the master offers nothing the memory would take |
| `FakeDram.FirstClockExample` | BOOM/boom-wrapper/src/main/resources/vsrc/FakeDRAM.v:142-154 | a concrete request that is served twice |
| `FakeDram.ResetKeepsPending` | BOOM/boom-wrapper/src/main/resources/vsrc/FakeDRAM.v:142-153 | a wrapper reset does not empty the queues: what was pending is presented again |
| `FakeDram.MasterSeesAtomicMemory` | BOOM/boom-wrapper/src/main/resources/csrc/dpi/FakeDRAM.cc:37-50 | over any run with an idle master after each reset, what the master takes off the R channel plus what is queued is one atomic burst per request, in order |
| `FakeDram.MasterSeesEveryWriteAnswered` | BOOM/boom-wrapper/src/main/resources/csrc/dpi/FakeDRAM.cc:37-53 | over the same runs, the ids answered on B, then those waiting and in flight, are the ids the master saw accepted on AW, in order |
| `FakeDram.ReadsOnTheWires` | BOOM/boom-wrapper/src/main/resources/csrc/dpi/FakeDRAM.cc:37-50 | in the master's own signals: each read it saw accepted is answered in its place by arLen + 1 beats with its id, beat k the k-th word from the sign-extended arAddr, as the bytes stood before that clock |
| `FakeDram.WritesOnTheWires` | BOOM/boom-wrapper/src/main/resources/csrc/dpi/FakeDRAM.cc:37-41 | in the master's own signals: the n-th W beat it saw accepted after an AW is stored at the n-th address from the sign-extended awAddr, in its size, with its data and strobe; the burst ends after awLen + 1 beats |
| `FakeDram.OnlyWritesStore` | BOOM/boom-wrapper/src/main/resources/csrc/dpi/SimMem.cc:119-122 | no clock without an accepted W beat changes the bytes |
| `FakeDram.SeenIsRun` | BOOM/boom-wrapper/src/main/resources/vsrc/FakeDRAM.v:154-178 | what the master sees on R, AW and B is what the memory takes and gives |
| `FakeDram.ClocksAreRun` | BOOM/boom-wrapper/src/main/resources/vsrc/FakeDRAM.v:160-177 | a run seen through the registers, resets included, is a run of the memory; after a reset they hide everything |
| `FakeDram.ResponsesAreStable` | BOOM/boom-wrapper/src/main/resources/vsrc/FakeDRAM.v:165-177 | a presented response stays valid and unchanged until accepted (IHI 0022E, section A3.2.1) |
| `FakeDram.DriverAndBusAgree` | BOOM/boom-wrapper/src/main/resources/csrc/dpi/FakeDRAM.cc:17-41 | the sign-extended bus address falls on the driver's offset, in the word the burst reads |
| `FakeDram.DriverAndBusAgreeIff` | BOOM/boom-wrapper/src/main/resources/csrc/Simulator.h:500-509 | this holds for all DRAM addresses if and only if the memory size divides the base address |
| `Recorders.FileMem.LoadProgram` | ArchSim/Mem.h:117-123 | the image takes as much of the buffer as fits, the rest stays, and the requested length is returned |
| `Recorders.MemRecorder.Trace` | ArchSim/Mem.h:199-215 | stores add their bytes, loads those not stored before |
| `Recorders.RecorderIsExact` | ArchSim/Mem.h:199-215 | a byte is in loads if and only if its first access was a load; loads and stores together are the touched bytes |
| `Recorders.LoadsAreLiveIn` | ArchSim/Mem.h:204-214 | two initial memories give the same loaded values if and only if they agree on loads |
| `Recorders.SpanIff` | ArchSim/Mem.h:199-215 | the bytes of an access are those within its length of its address, going round at 2^64 |
| `Recorders.LoadSeesStore` | ArchSim/Mem.h:204-214 | a load of what was stored returns it, whatever the initial memory |
| `Recorders.FetchRecorder.Trace` | ArchSim/Mem.h:160-177 | a fetch adds its bytes and drives the repeat counter; other accesses change nothing |
| `Recorders.FetchesIff` | ArchSim/Mem.h:160-165 | the bytes recorded are those of the fetches made |
| `Recorders.FetchRecorder.Reset` | ArchSim/Mem.h:186 | forgets the addresses only |
| `Recorders.FetchStuckIffRepeat` | ArchSim/Mem.h:167-175 | stuck if and only if twelve equal fetch addresses in a row occurred |
| `Repeats.CounterMeasuresRun` | ArchSim/Mem.h:167-172 | the repeat counter, from any state, is the length of the final run of equal entries, less one |
| `ArchSim.Processor.IsInside` | ArchSim/processor.patch:215-221 | the search finds a region holding the address if and only if there is one |
| `ArchSim.Processor.JumpHook` | ArchSim/processor.patch:223-249 | the flags after a jump: boot code exempt, three objections, the last one named |
| `ArchSim.Processor.StoreHook` | ArchSim/processor.patch:251-268 | stores after the initialisation into code or forbidden memory are remembered |
| `ArchSim.Processor.LoadHook` | ArchSim/processor.patch:271-279 | loads after the initialisation from forbidden memory are remembered |
| `ArchSim.Processor.TrapHook` | ArchSim/processor.patch:352-363 | traps, illegal instructions and traps without a handler are remembered |
| `ArchSim.TooNearIffWithinEight` | ArchSim/processor.patch:237-238 | the near test means less than eight bytes if and only if its sums do not wrap |
| `ArchSim.LegalJumpIff` | ArchSim/processor.patch:223-249 | a jump is legal if and only if its target lies in a region, is aligned, and is eight bytes or more away |
| `ArchSim.IllegalJumpNamed` | ArchSim/processor.patch:231-248 | what an illegal jump is called |
| `ArchSim.ArchSim.constructor` | ArchSim/ArchSim.h:61-122 | a new simulator has clear flags but for the device flag, no records, and recorders attached on request |
| `ArchSim.ArchSim.Reset` | ArchSim/ArchSim.h:125-138 | clear flags, no recorder attached, records forgotten but for the fetch recorder's counter and verdict |
| `ArchSim.ArchSim.LoadProgram` | ArchSim/ArchSim.h:142-147 | the image, and where code lies |
| `ArchSim.ArchSim.Observe` | ArchSim/ArchSim.h:328-346 | an event reaches its hook, the attached recorders, or the device flag and the MMIO list |
| `ArchSim.ArchSim.Run` | ArchSim/ArchSim.h:187-228 | 0 if and only if nothing may run or a discard is seen with no early exit there or before; otherwise the early exit or the limit; flags and records are those of the steps made |
| `ArchSim.ResultUnique` | ArchSim/ArchSim.h:187-228 | a run has one result |
| `ArchSim.EarlyExitIff` | ArchSim/ArchSim.h:193-202 | a run ends early if and only if it traps badly, waits for an interrupt, or fetches one address twelve times in a row |
| `ArchSim.DiscardIff` | ArchSim/ArchSim.h:205-224 | a run is discarded if and only if one of the objectionable events occurred, or the last device access was not allowed |
| `ArchSim.FlagsRemember` | ArchSim/processor.patch:223-363 | each of the six sticky flags holds if and only if an event it stands for has occurred |
| `ArchSim.KeptRunIsClean` | ArchSim/ArchSim.h:204-224 | no step a kept run passed saw an illegal jump, a store starting in code or a forbidden access, and after each the last device access so far was an allowed one |
| `ArchSim.KeptStoresMissCode` | ArchSim/processor.patch:251-257 | a store of n bytes in a kept run writes into code if and only if a region starts in its middle |
| `ArchSim.StoreStartSuffices` | ArchSim/processor.patch:251-257 | the first byte tells a store into the code if and only if it lies in the code or no region starts at a later byte |
| `ArchSim.DeviceFlagIsLastAccess` | ArchSim/ArchSim.h:328-345 | the device flag tells of the last MMIO access only, or of the start if there is none |
| `ArchSim.UninitialisedFlagDiscards` | ArchSim/ArchSim.h:294 | a device flag that happens to start set discards a program whose first step touches no device |
| `ArchSim.RunRecordsAreExact` | ArchSim/ArchSim.h:106-110 | over a run with recorders attached, a byte is in loads if and only if its first access was a load, and the run is stuck if and only if twelve equal fetches follow each other |
| `ArchSim.ResetRunFindsDevicesOnly` | ArchSim/ArchSim.h:125-138 | after a reset a run finds addresses if and only if it touches a device |
| `ArchSim.StuckStays` | ArchSim/ArchSim.h:133 | a stuck verdict outlives the reset |
| `ArchSim.ArchSim.GetAccessedMem` | ArchSim/ArchSim.h:232-245 | loads and MMIO bytes, draining the recorder |
| `ArchSim.ArchSim.GetExecutedInsts` | ArchSim/ArchSim.h:248-259 | the fetched bytes inside the RAM |
| `ArchSim.ToArray` | ArchSim/SpikeWrapper.cpp:53-79 | a set becomes an ascending array of exactly its elements |
| `ArchSim.RunSpikeSim` | ArchSim/SpikeWrapper.cpp:32-82 | the addresses recorded over the steps of a kept run, none of a discarded one; an empty address list does not tell the two apart |
| `ArchSim.RunAddresses` | ArchSim/ArchSim.h:232-259 | the lists hold exactly the bytes first accessed by a load, the bytes of devices, and the fetched bytes of the RAM |
| `Simulator.Simulator.LoadBytes` | BOOM/boom-wrapper/src/main/resources/csrc/Simulator.h:246-265 | byte by byte, as much of the buffer as fits stands at the address, untainted; nothing without a buffer or outside the DRAM; every call is noted |
| `Simulator.Simulator.AddData` | BOOM/boom-wrapper/src/main/resources/csrc/Simulator.h:276-280 | byte by byte, copies what there is and fits, and labels the whole range |
| `Simulator.Simulator.LoadProgramSections` | BOOM/boom-wrapper/src/main/resources/csrc/main.cc:114-150 | for sorted disjoint regions each file byte stands in its place and every other byte is kept; labels mark exactly the gaps; the result is the code size; the calls made are one for each gap and each region, in order |
| `Simulator.EachByteOnce` | BOOM/boom-wrapper/src/main/resources/csrc/main.cc:123-147 | these calls copy every byte of the file exactly once and no other, code bytes as code and gaps as data, with one call per region |
| `Simulator.CodeSizeIsCodeBytes` | BOOM/boom-wrapper/src/main/resources/csrc/main.cc:138-150 | the code size returned is the number of bytes in the regions |
| `Simulator.InCodeIff` | BOOM/boom-wrapper/src/main/resources/csrc/main.cc:123-142 | an address is code if and only if some region holds it |
| `Simulator.KeptIff` | BOOM/boom-wrapper/src/main/resources/csrc/main.cc:124-126 | the loader keeps exactly the regions that do not start below the initialisation size |
| `Simulator.SkipMissesInitCode` | BOOM/boom-wrapper/src/main/resources/csrc/main.cc:124-126 | the skip passes over regions in the initialisation code if and only if there are none |
| `Simulator.OffsetInFileIff` | BOOM/boom-wrapper/src/main/resources/csrc/main.cc:137 | the file offset computed lies in the file if and only if the address lies where the file is placed |
| `Simulator.SkipExample` | BOOM/boom-wrapper/src/main/resources/csrc/main.cc:124-137 | a concrete region that is not skipped, and its wrapped offset |
| `Simulator.Simulator.LoadImage` | BOOM/boom-wrapper/src/main/resources/csrc/main.cc:164-204 | byte by byte, initialisation, MDS initialisation and file stand one after the other and other bytes are kept; all bytes behind them stay tainted |
| `Simulator.Simulator.UntaintArchAddresses` | BOOM/boom-wrapper/src/main/resources/csrc/Simulator.h:300-311 | a byte loses its label if and only if a DRAM address of the list lies in its 8-byte group |
| `Simulator.Simulator.TaintSecrets` | BOOM/boom-wrapper/src/main/resources/csrc/main.cc:225-236 | the closed form of the taint map, whatever the labels of the program bytes were |
| `Simulator.Simulator.SetUp` | BOOM/boom-wrapper/src/main/resources/csrc/main.cc:164-236 | bytes, one by one, and taint map after the set-up of a pass |
| `Simulator.ArchGroupIff` | BOOM/boom-wrapper/src/main/resources/csrc/Simulator.h:302-309 | membership of a group in the address list, by its aligned 8 bytes |
| `Simulator.SecretIff` | BOOM/boom-wrapper/src/main/resources/csrc/Simulator.h:302-309 | a byte is secret if and only if no reported DRAM address lies in its aligned 8 bytes |
| `Simulator.CheckRegFile` | BOOM/boom-wrapper/src/main/resources/csrc/Simulator.h:403-428 | the first tainted byte, in verbose mode or not |
| `SecretInference.SameRun` | docs/components.md:26-27 | images that agree on the observed bytes give the same run, step by step |
| `SecretInference.ObservedIsExact` | ArchSim/Mem.h:144-229 | without self-modification, the values read are the same if and only if the images agree on the observed bytes |
| `SecretInference.ReportedAddresses` | ArchSim/SpikeWrapper.cpp:32-82 | the lists reported by a run whose tracers hear the program are those of the program |
| `SecretInference.SecretsDoNotFlow` | BOOM/boom-wrapper/src/main/resources/csrc/main.cc:225-231 | for every deterministic program, two DRAM images that differ only in bytes left tainted give the same run |
| `Rob.GetRobBusyMask` | BOOM/boom-wrapper/src/main/resources/csrc/uarch/Rob.h:824-872 | bit i if and only if row i is valid and busy |
| `Rob.GetDiff` | BOOM/boom-wrapper/src/main/resources/csrc/uarch/Rob.h:730-746 | the entries that stopped being busy, in order |
| `Rob.DiffIff` | BOOM/boom-wrapper/src/main/resources/csrc/uarch/Rob.h:725-746 | an entry is in the difference if and only if its bit was set and is not any more, each bank by its own masks |
| `Rob.DiffOrdered` | BOOM/boom-wrapper/src/main/resources/csrc/uarch/Rob.h:735-743 | row by row, and the first bank first |
| `Rob.FindWriters` | BOOM/boom-wrapper/src/main/resources/csrc/uarch/Rob.h:765-787 | the walk ends and finds the matching slots of the rows visited |
| `Rob.WalkVisitsWindow` | BOOM/boom-wrapper/src/main/resources/csrc/uarch/Rob.h:768-787 | each row of the circular window is visited once and no other; a shared head and tail row twice |
| `Rob.GetTaintingInstruction` | BOOM/boom-wrapper/src/main/resources/csrc/uarch/Rob.h:754-809 | computes the attribution the next rows describe |
| `Rob.RegisterOfByte` | BOOM/boom-wrapper/src/main/resources/csrc/uarch/Rob.h:763-783 | the entry writes the aligned register if and only if its destination is the register of the tainted byte |
| `Rob.SameRegisterSameBlame` | BOOM/boom-wrapper/src/main/resources/csrc/uarch/Rob.h:763 | all eight bytes of a register blame the same instruction |
| `Rob.HeadIff` | BOOM/boom-wrapper/src/main/resources/csrc/uarch/Rob.h:714-723 | the head is the first valid slot of the head row |
| `Rob.NobodyBlamed` | BOOM/boom-wrapper/src/main/resources/csrc/uarch/Rob.h:789-792 | the null entry for an empty buffer or no writer |
| `Rob.OnlyWriterBlamed` | BOOM/boom-wrapper/src/main/resources/csrc/uarch/Rob.h:794-795 | the only writer in the window, except in the head row of a full buffer, where the fallback decides |
| `Rob.OnlyWriterBlamedIff` | BOOM/boom-wrapper/src/main/resources/csrc/uarch/Rob.h:789-808 | the only writer is blamed if and only if the buffer is not empty and it is outside the head row of a full buffer, or the last writer to stop being busy, or the head when no writer did |
| `Rob.SeveralWriters` | BOOM/boom-wrapper/src/main/resources/csrc/uarch/Rob.h:797-808 | with several writers, the last one that stopped being busy is blamed, or the head |
| `Rob.LastWriterIs` | BOOM/boom-wrapper/src/main/resources/csrc/uarch/Rob.h:801-808 | the fallback is the last writer that stopped being busy, or the head |
| `Rob.FullBufferExample` | BOOM/boom-wrapper/src/main/resources/csrc/uarch/Rob.h:768-787 | a full buffer whose only writer goes unblamed |
| `Flushes.ReadFrom` | BOOM/boom-wrapper/src/main/resources/csrc/uarch/Flushes.h:188-251 | each kind of flush if and only if the signals say so; the cause, bad address, mask and blamed head entry of each |
| `Flushes.MispredictedBranch` | BOOM/boom-wrapper/src/main/resources/csrc/uarch/Flushes.h:225-245 | entry and direction are those of the port taken, a mispredicting one if and only if the first mispredicts or the second is selected |
| `Flushes.MispredictedBranchExample` | BOOM/boom-wrapper/src/main/resources/csrc/uarch/Flushes.h:225-245 | concrete signals that blame the wrong branch |
| `Classification.CrashInfo.RecordTaint` | BOOM/boom-wrapper/src/main/resources/csrc/Classification.h:61-71 | the record of a first taint |
| `Classification.CrashInfo.UpdateTaintInstr` | BOOM/boom-wrapper/src/main/resources/csrc/Classification.h:74-86 | branch mask and commit test follow the tracked slot |
| `Classification.CrashInfo.RecordFlush` | BOOM/boom-wrapper/src/main/resources/csrc/Classification.h:90-122 | irrelevant flushes change nothing, relevant ones are kept, nested exceptions renamed |
| `Classification.LabelLetters` | BOOM/boom-wrapper/src/main/resources/csrc/Classification.h:166-298 | the families of labels, by what was found |
| `Classification.MeltdownIff` | BOOM/boom-wrapper/src/main/resources/csrc/Classification.h:177-218 | a Meltdown label if and only if memory is a source and the tainting instruction itself excepts |
| `Classification.SpectreIff` | BOOM/boom-wrapper/src/main/resources/csrc/Classification.h:180-213 | a Spectre label if and only if memory is a source and a misprediction or memory ordering is blamed; each of the seven labels, when |
| `Classification.OtherLabelsIff` | BOOM/boom-wrapper/src/main/resources/csrc/Classification.h:173-292 | the MDS, OOO and unknown labels, when |
| `Classification.CauseNamesDiffer` | BOOM/boom-wrapper/src/main/resources/csrc/Classification.h:220-285 | labels tell exceptions apart by their cause |
| `Classification.ArchFlushIff` | BOOM/boom-wrapper/src/main/resources/csrc/Classification.h:287-292 | an ArchFlush label if and only if an intentional flush was recorded |
| `Detector.Sim.Step` | BOOM/boom-wrapper/src/main/resources/csrc/Simulator.h:116-152 | commits on both ports, the repeat counter, and the stuck exit that skips the tick |
| `Detector.CountersCount` | BOOM/boom-wrapper/src/main/resources/csrc/Simulator.h:116-152 | until stuck, the counters are the number of cycles, the number of commits on both ports, and the cycle of the last one |
| `Detector.Sim.Reset` | BOOM/boom-wrapper/src/main/resources/csrc/Simulator.h:102-112 | everything but the repeat counter starts again |
| `Detector.StuckIffRepeat` | BOOM/boom-wrapper/src/main/resources/csrc/Simulator.h:123-139 | from any start, stuck if and only if a commit on port 0 ends a run of eleven equal addresses |
| `Detector.RetiredIffCommitted` | BOOM/boom-wrapper/src/main/resources/csrc/Simulator.h:123-147 | the retired set is the set of addresses committed so far |
| `Detector.TickBound` | BOOM/boom-wrapper/src/main/resources/csrc/main.cc:243-249 | ticks never exceed (limit - 1) * num + limit, for every stream of events |
| `Detector.RunIsFinite` | BOOM/boom-wrapper/src/main/resources/csrc/main.cc:243-244 | the loop makes at most one turn more than that |
| `Detector.LiveIff` | BOOM/boom-wrapper/src/main/resources/csrc/main.cc:243-249 | the loop goes on if and only if no turn so far was over by the trace alone: more than num commits, none for limit cycles, or stuck |
| `Detector.RunsOutIff` | BOOM/boom-wrapper/src/main/resources/csrc/main.cc:243-249 | without detection the loop ends at the first such turn |
| `Detector.Detect` | BOOM/boom-wrapper/src/main/resources/csrc/main.cc:265-304 | the detection part of one turn |
| `Detector.Run` | BOOM/boom-wrapper/src/main/resources/csrc/main.cc:243-306 | the loop ends within the bound, with the verdict of the trace, its record and its simulator state |
| `Detector.VerdictUnique` | BOOM/boom-wrapper/src/main/resources/csrc/main.cc:265-304 | the declarative reading of a trace has exactly one verdict |
| `Detector.FatalIff` | BOOM/boom-wrapper/src/main/resources/csrc/main.cc:296-303 | a flush is fatal if and only if it is an exception with one of two causes |
| `Detector.ArchitecturalIff` | BOOM/boom-wrapper/src/main/resources/csrc/Classification.h:74-86 | a taint is architectural if and only if the tracked slot holds the first valid entry of the head row, ready to commit |
| `Detector.RelevantFlushIff` | BOOM/boom-wrapper/src/main/resources/csrc/Classification.h:90-113 | a flush explains a taint if and only if it is not intentional, or is a misprediction whose mask meets the tracked one |
| `Detector.FlushRecordIs` | BOOM/boom-wrapper/src/main/resources/csrc/Classification.h:61-122 | the record of an explained taint, field by field, over the trace |
| `Detector.TrackedSlotAtFirst` | BOOM/boom-wrapper/src/main/resources/csrc/Classification.h:74-79 | the tracked slot first holds the blamed instruction if and only if there is one, or the first slot is empty |
| `Driver.RecordsAreConsistent` | BOOM/boom-wrapper/src/main/resources/csrc/Classification.h:90-122 | on every run: flush after taint, never with an architectural taint, never intentional, mispredictions meet the mask of the tracked slot, no unset field is read |
| `Driver.LabelsOfVerdicts` | BOOM/boom-wrapper/src/main/resources/csrc/main.cc:282-315 | No_flush means committed or unexplained; No_taint and ArchFlush are never reported |
| `Driver.TrainedIffCommitted` | BOOM/boom-wrapper/src/main/resources/csrc/Classification.h:184-197 | over a whole run, the trained label if and only if a branch not to be taken was mispredicted and the blamed address was committed in that run |
| `Driver.RunPass` | BOOM/boom-wrapper/src/main/resources/csrc/main.cc:216-333 | the label of a pass is that of its trace, from the state it starts in |
| `Driver.LabelUnique` | BOOM/boom-wrapper/src/main/resources/csrc/main.cc:216-333 | trace and start state determine the label and the state left behind |
| `Driver.MeltdownNeedsMemory` | BOOM/boom-wrapper/src/main/resources/csrc/Classification.h:177-179 | a pass over buffers alone never says Meltdown |
| `Driver.Campaign` | BOOM/boom-wrapper/src/main/resources/csrc/main.cc:162-335 | at most two passes; the second one replaces a Meltdown of the first; with MDS detection on, Meltdown is never reported |
| `Driver.ReportUnique` | BOOM/boom-wrapper/src/main/resources/csrc/main.cc:162-335 | the passes determine the report and their number |
| `Driver.DroppedSecondPass` | BOOM/boom-wrapper/src/main/resources/csrc/main.cc:216-221 | a Meltdown whose second pass is dropped goes unreported |

## Left out

- BurstRoundTrip: under the declared write only, for word-sized aligned bursts; as coded, no beat stores bus data (see above). Read bursts stride by whole words whatever their size field says, as in the code.
- Campaign: a report is taken not to return to the loop; what the loop would do if it did is not modelled.
- SecretsDoNotFlow: over a flat physical memory with no device side effects; page-table walks inside the instruction-set simulator are not part of this model, nor are bytes of its memory behind the program, which it leaves uninitialised.
- Written: the lane mask is computed in natural numbers; the source shifts an `int`, which is the same while size is at most 30 and size and lane offset add up to at most 31, as they do for declared transfers of up to 16 bytes on a bus of up to 16 bytes. In the coded call the size is the strobe: a strobe from 31 to 63, or one that adds up to more, shifts an `int` out of range, and the model does not capture what the machine then does.
- AddData: a range past the end of the DRAM, whose copy is cut off but whose labels are written outside the byte array.
- Accesses of the simulated program to the image through `FileMem::load` and `FileMem::store`, and the MMIO devices: offset checks and copies only.
- The second bank is always present; builds with a single reorder-buffer bank are not modelled.
- Fuzzer callbacks, crash reports, tracing, argument parsing, file reading and memory dumps: input and output.
- The sanitizer runtime and instruction-cache re-tainting: taint is one boolean per byte, and bytes copied from files are untainted.
- Load and store queues, line-fill buffers and predictor state: field copies and lookups that would only add easy members.
- The `initialized` register of the wrapper, which nothing reads.
