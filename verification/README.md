# SimpleScalar laboratories: verified model

This project models, in Dafny, the deterministic cores of a SimpleScalar-based set of processor
laboratories and proves what they are for.

**Branch predictors** (`BinaryWords`, `Branches`, `Bimodal`, `PAp`, `FoldedHistory`, `Tage`,
`TageClosedForms`, `TageProperties`, `TageUpdate`, `TageMachine`, `Simulation`). Three predictors run over
an unbounded trace. Each is a class whose tables are updated in place, proved to reflect a function of the
trace; the theorems are about that function: amortised misprediction bounds, what a six-outcome history can
and cannot learn, folded history registers that always equal the fold recomputed from scratch, and the
allocation protocol of TAGE.

**Simulated memory** (`FlatMemory`, `PageCache`, `PageTable`, `MemoryAccess`, `MemoryLaws`). A hash page
table with linked buckets, moved to the front on lookup, refines a flat map from 32-bit addresses to bytes.
Checked accesses and block and string copies are built on it.

**External I/O traces, checkpoints, initial stack** (`Eio`, `EioTraces`, `EioMachine`, `EioSession`,
`Checkpoint`, `EioResume`, `StackImage`). A recorder that coalesces accesses into blobs, a replayer that
checks and reproduces them, dump and reload of a machine, resumption of a run from two images and a trace,
and the image of arguments and environment that a program finds on its stack.

**Kernels** (`Crc`, `NumberText`, `NumberLaws`, `Events`, `EventQueue`, `SymbolTable`, `AllSymbols`,
`EvalValues`, `EvalLaws`, `EvalGrammar`, `ScanLaws`, `Evaluator`, `ResourcePool`). Table-driven checksum,
printing and parsing of 64-bit numbers, a time-ordered queue over two linked lists, binary search in symbol
tables, an expression evaluator with one token of look-ahead, and a pool of functional units.

`dafny verify dfyconfig.toml` checks the whole project.

Where code and documentation disagree the model follows the code:

- The folded windows are one shorter than the history lengths named in the comments: 7, 15, ..., 511 bits
  (`predictor.cc:597-603`), and both registers are read as decimal numbers, the 11-bit one over ten digits
  and the 10-bit one over eleven (`predictor.cc:244-254`). The eleventh digit is always 0.
- Tags are masked to ten bits although eleven are announced (`predictor.cc:131-138`, `325-331`).
- The alternative prediction repeats the provider when a shorter table matches too (`predictor.cc:390`), so
  it is not the next longest match; `TageProperties.PredictionRule` states what follows.
- The bound on mispredictions per bimodal counter is min(2T, 2N + 1), and it is met.
- A checkpoint taken before any system call records the count -1, which fast forward never finds
  (`eio.c:813-840`).
- Reading back the smallest signed number gives the right value and reports ERANGE (`misc.c:874-885`); a
  hexadecimal field padded with blanks after its prefix is not read back.
- The limit on pending events is tested against a count that never grows (`eventq.c:81`), so a limit of n
  events admits any number of them; only a negative limit ever stops the program
  (`EventQueue.EventQueue.Enqueue`).
- Looking an address up within bounds in the table of all symbols can miss a symbol that contains it
  (`symbol.c:711-759`): sizes are computed for text and data separately. `AllSymbols.MergedLookupMisses` and
  `AllSymbols.TiedLookupMisses` have inputs. `SymbolTable.CompleteIfReachable` says exactly which sorted tables are
  searched completely, and `AllSymbols.AllSymbolsComplete` what that means for the two segments: the upper one
  ends last, or the rightmost halving comes by the last symbol of the lower one.
- A traced write that faults would be recorded although it changes nothing (`eio.c:521-562`), and replay would
  store it. It takes a caller that the program does not have: handlers and replayer move single bytes, which
  never fault (`EioMachine.CopiesNeverFault`, `EioMachine.ReplayNeverFaults`).
- A look-ahead that finds an invalid token consumes it (`eval.c:210-223`); `EvalGrammar.InvalidIsDropped`
  shows the effect. The evaluator's procedures are specified on every text; their values are those of the
  grammar exactly when no token consumed is invalid (`EvalGrammar.DerivedIffClean`).
- Operators of one level group to the right, as the grammar in `dlite.h:82-90` says: a - b - c is
  a - (b - c).

## Model

| member | source | states |
|---|---|---|
| `Bimodal.Predictor.constructor` | Lab2-Branch-Predictor/predictor.cc:10-15 | every counter starts at 1, the state that the empty trace calls for |
| `Bimodal.Predictor.GetPrediction` | Lab2-Branch-Predictor/predictor.cc:17-25 | from any state reached by a trace, the prediction of that trace: the counter of all outcomes seen at PCs equal modulo 4096 |
| `Bimodal.Predictor.UpdatePredictor` | Lab2-Branch-Predictor/predictor.cc:27-40 | exactly one counter moves, one step toward the outcome and never out of 0..3; the table then reflects the longer trace |
| `Bimodal.EntryAmortised` | Lab2-Branch-Predictor/predictor.cc:17-40 | potential argument for one counter: mispredictions plus distance from either end are bounded by outcomes of one kind |
| `Bimodal.MissesSplitByEntry` | Lab2-Branch-Predictor/predictor.cc:10-40 | over any trace the mispredictions are the sum, over table entries, of those that each entry makes on its own outcomes |
| `Bimodal.AmortisedBound` | Lab2-Branch-Predictor/predictor.cc:10-40 | over any trace, mispredictions are at most the sum over entries of min(2 * taken, 2 * not taken + 1) |
| `Bimodal.EntryBoundIsTight` | Lab2-Branch-Predictor/predictor.cc:10-40 | for every n there are n outcomes on which an entry meets its bound exactly |
| `Bimodal.PredictionDependsOnSubTrace` | Lab2-Branch-Predictor/predictor.cc:17-40 | traces that agree on the branches with PCs equal modulo 4096 give the same prediction |
| `Bimodal.PredictionClosedForm` | Lab2-Branch-Predictor/predictor.cc:10-40 | after any trace the prediction for a PC is that of a two-bit counter that starts at 1 and has seen the outcomes at all PCs equal to it modulo 4096 |
| `PAp.Predictor.constructor` | Lab2-Branch-Predictor/predictor.cc:46-54 | pattern counters at 1 and histories at 0 reflect the empty trace |
| `PAp.Predictor.GetPrediction` | Lab2-Branch-Predictor/predictor.cc:56-65 | the prediction that the trace calls for, through both levels |
| `PAp.Predictor.UpdatePredictor` | Lab2-Branch-Predictor/predictor.cc:67-88 | both tables reflect the longer trace |
| `PAp.HistoryIsLastSix` | Lab2-Branch-Predictor/predictor.cc:84-87 | a stored pattern is, bit by bit, the last six outcomes recorded in its entry, padded with not taken |
| `PAp.IsolatedMisses` | Lab2-Branch-Predictor/predictor.cc:56-88 | a branch that shares neither its history entry nor its pattern table is mispredicted as often as its own outcomes alone call for |
| `PAp.LearningAmortised` | Lab2-Branch-Predictor/mb.c:3-9 | mispredictions plus remaining potential never exceed the patterns followed by taken plus twice the first six outcomes |
| `PAp.LearningBound` | Lab2-Branch-Predictor/mb.c:3-9 | a branch whose outcome is a function of its last six is mispredicted at most (patterns followed by taken) + 12 <= 76 times, over any length of run |
| `PAp.PeriodSevenIsLearned` | Lab2-Branch-Predictor/mb.c:14-19 | a branch taken once in seven, at any phase, is mispredicted at most 13 times ever |
| `PAp.PeriodEightIsNotLearned` | Lab2-Branch-Predictor/mb.c:25-33 | a branch taken once in eight is mispredicted at least once in every full period, for ever |
| `PAp.PredictionClosedForm` | Lab2-Branch-Predictor/predictor.cc:46-88 | after any trace, entries shared or not: the prediction for a PC is that of a two-bit counter that starts at 1 and has seen the outcomes of all branches with the same low three bits that came after the same last six outcomes, those being of the branches with the same next nine bits |
| `FoldedHistory.FoldStep` | Lab2-Branch-Predictor/predictor.cc:226-242 | one rotation with the new and the expiring bit turns the fold of a window into the fold of the next window |
| `FoldedHistory.FoldDependsOnWindow` | Lab2-Branch-Predictor/predictor.cc:226-242 | a fold depends only on the bits of its window |
| `FoldedHistory.ValueDependsOnWindow` | Lab2-Branch-Predictor/predictor.cc:244-254 | so does the number read from the fold |
| `FoldedHistory.CsrValue` | Lab2-Branch-Predictor/predictor.cc:244-254 | the number read never exceeds 1111111111, so the 32-bit sum does not wrap |
| `TageMachine.ReadDigit` | Lab2-Branch-Predictor/predictor.cc:247-252 | the wrapping 32-bit power and sum follow the unbounded decimal value digit by digit, although the power itself overflows |
| `TageMachine.Predictor.Rotate` | Lab2-Branch-Predictor/predictor.cc:230-235 | every bit moves up by one, the unused bit and the other tables stay |
| `TageMachine.Predictor.UpdateCsr` | Lab2-Branch-Predictor/predictor.cc:226-242 | both registers of one table rotate and take in the two history bits; the other tables and the unused bit stay |
| `TageMachine.Predictor.GetCsr` | Lab2-Branch-Predictor/predictor.cc:244-254 | the register read is the number of the fold recomputed from the global history |
| `TageMachine.Predictor.UpdateFold` | Lab2-Branch-Predictor/predictor.cc:597-603 | the update of one table restores its two folds and leaves those of the others alone |
| `TageMachine.Predictor.PushHistory` | Lab2-Branch-Predictor/predictor.cc:591-603 | after every branch all fourteen registers again equal the folds, recomputed from scratch, of the last 7, 15, ..., 511 outcomes |
| `TageClosedForms.FoldIsParity` | Lab2-Branch-Predictor/predictor.cc:226-242 | a bit of a fold tells whether the number of taken outcomes at its positions is odd |
| `TageClosedForms.CsrIsReading` | Lab2-Branch-Predictor/predictor.cc:244-254 | the two numbers read for a table are the ten low bits, as decimal digits, of the folds of the last 7, 15, ..., 511 outcomes onto eleven and onto ten bits |
| `TageClosedForms.TagBits` | Lab2-Branch-Predictor/predictor.cc:323-331 | bit by bit, a tag is the exclusive or of the PC, the first reading, and twice the second |
| `TageClosedForms.TenBitsDecide` | Lab2-Branch-Predictor/predictor.cc:323-341 | tags and indices are determined by their ten bits |
| `TageClosedForms.IndexBits` | Lab2-Branch-Predictor/predictor.cc:333-341 | bit by bit, an index is the exclusive or of the PC, the PC shifted by eleven, and the second reading |
| `TageClosedForms.BaseHistory` | Lab2-Branch-Predictor/predictor.cc:215-221 | a history of the base predictor holds the last nine outcomes of the branches that share it |
| `TageClosedForms.BaseCounter` | Lab2-Branch-Predictor/predictor.cc:187-221 | a counter of the base predictor is the three-bit counter from 3 over the outcomes that came after its nine |
| `TageClosedForms.BaseClosedForm` | Lab2-Branch-Predictor/predictor.cc:187-221 | after any trace the base predictor answers for a PC as that counter does, for the nine outcomes that the PC has now |
| `TageClosedForms.ProviderRule` | Lab2-Branch-Predictor/predictor.cc:309-396 | the provider is the highest table that holds an entry with the tag of the PC; its alternative repeats it exactly if another table holds one |
| `TageMachine.Predictor.constructor` | Lab2-Branch-Predictor/predictor.cc:257-307 | the initial tables, histories and registers are those of the empty trace |
| `TageMachine.Predictor.GetT0` | Lab2-Branch-Predictor/predictor.cc:207-213 | the prediction of the base predictor |
| `TageMachine.Predictor.TagAndIndex` | Lab2-Branch-Predictor/predictor.cc:323-341 | tag and index read from the registers are the hashes of PC and folded history |
| `TageMachine.Predictor.LookUp` | Lab2-Branch-Predictor/predictor.cc:343-378 | which tables match and what their entries say |
| `TageMachine.Predictor.Choose` | Lab2-Branch-Predictor/predictor.cc:380-396 | the scan of the seven notes: the first match from the longest table down, whether it is weak, and whether another match follows |
| `TageMachine.ChosenProvides` | Lab2-Branch-Predictor/predictor.cc:380-398 | what that scan finds are the provider, the alternative and the prediction of the state |
| `TageMachine.Predictor.GetPrediction` | Lab2-Branch-Predictor/predictor.cc:309-399 | the prediction, and the provider that it leaves in the globals, are those that the trace calls for |
| `TageMachine.ProviderFrom` | Lab2-Branch-Predictor/predictor.cc:380-398 | the scan from the longest table decides provider, alternative and prediction; the alternative repeats the provider when a shorter table matches too |
| `TageMachine.Predictor.UpdateT0` | Lab2-Branch-Predictor/predictor.cc:215-221 | the base predictor counts and shifts |
| `TageMachine.Predictor.TrainPrediction` | Lab2-Branch-Predictor/predictor.cc:409-427 | the counter of the provider moves one step and saturates; the copies kept for the allocation test stay 0 when it does |
| `TageMachine.Predictor.TrainUseful` | Lab2-Branch-Predictor/predictor.cc:429-448 | useful bit and useful counter change only if provider and alternative disagree, and then in the direction of the outcome of the provider |
| `TageMachine.Predictor.Train` | Lab2-Branch-Predictor/predictor.cc:409-449 | counter, useful bit and useful counter of the provider only |
| `TageMachine.Predictor.FindFree` | Lab2-Branch-Predictor/predictor.cc:476-484 | the first two tables above the provider whose entry is not useful |
| `TageMachine.Predictor.Allocate` | Lab2-Branch-Predictor/predictor.cc:486-574 | which entry is replaced, when the choice alternates, and when all useful bits above are cleared |
| `TageMachine.Predictor.ClearUseful` | Lab2-Branch-Predictor/predictor.cc:490-511 | useful bits from one table up become 0, nothing else changes |
| `TageMachine.Predictor.Learn` | Lab2-Branch-Predictor/predictor.cc:408-589 | tables, alternator and useful counter after training, allocation and ageing |
| `TageMachine.Predictor.UpdatePredictor` | Lab2-Branch-Predictor/predictor.cc:401-604 | the whole update takes the state of a trace to the state of the longer trace |
| `TageProperties.PredictionRule` | Lab2-Branch-Predictor/predictor.cc:380-398 | the prediction in closed form: a weak entry is overruled only by the base predictor, and only when no shorter table matches |
| `TageProperties.UpdateKeepsRange` | Lab2-Branch-Predictor/predictor.cc:401-604 | one update keeps counters in 0..7, useful bits in 0..1, tags in 0..1023 and the useful counter in 1..255 |
| `TageProperties.RunKeepsRange` | Lab2-Branch-Predictor/predictor.cc:257-604 | so does every run |
| `TageProperties.AllocationRewritesOneTag` | Lab2-Branch-Predictor/predictor.cc:451-575 | an allocating predict/update pair changes the tag of one entry, strictly above the provider, not useful, and not a match before |
| `TageProperties.OtherwiseTagsStay` | Lab2-Branch-Predictor/predictor.cc:401-604 | every other pair changes no tag at all |
| `TageProperties.AllocatedEntryProvides` | Lab2-Branch-Predictor/predictor.cc:380-396 | before the histories advance, looking the PC up again makes exactly the allocated table the provider, predicting the outcome |
| `TageProperties.ClearUnlessEarned` | Lab2-Branch-Predictor/predictor.cc:429-448 | useful bits above a table, once all 0, stay 0 until a provider above it earns one |
| `TageProperties.FailuresAreSeparated` | Lab2-Branch-Predictor/predictor.cc:490-511 | between two failed allocations, the second from an equal or higher provider, some entry above the first provider earned its useful bit |
| `TageProperties.HistoryIsRecentOutcomes` | Lab2-Branch-Predictor/predictor.cc:591-595 | after any trace bit j of the global history is the outcome j branches ago |
| `TageProperties.HashesDependOnRecentOutcomes` | Lab2-Branch-Predictor/predictor.cc:323-341 | tag and index of a table depend on the PC and the last 7, 15, ..., 511 outcomes and on nothing else |
| `TageUpdate.UseCounterStep` | Lab2-Branch-Predictor/predictor.cc:428-448 | the useful counter moves when provider and alternative disagree, in the direction of the provider, and restarts at 128 when it runs out |
| `TageUpdate.QuietStep` | Lab2-Branch-Predictor/predictor.cc:408-451 | a round with a right prediction, with the last table as provider, or with a provider that has just become weak: its entry is trained, every other entry stays, but for ageing |
| `TageUpdate.AllocatingStep` | Lab2-Branch-Predictor/predictor.cc:451-575 | any other round with a free entry above the provider: one new entry, in the lowest free table or every other time in the second, weak in the direction of the outcome; every other entry as before |
| `TageUpdate.FailedStep` | Lab2-Branch-Predictor/predictor.cc:486-511 | any other round without one: all useful bits above the provider are cleared |
| `TageUpdate.StartMeans` | Lab2-Branch-Predictor/predictor.cc:257-307 | what tables, histories and counters hold before the first branch |
| `TageUpdate.StartsCold` | Lab2-Branch-Predictor/predictor.cc:257-307 | the first branch of a run is predicted not taken, whatever its PC |
| `TageUpdate.QuietKeeps` | Lab2-Branch-Predictor/predictor.cc:449-451 | so the quiet rounds change no tag, and nothing above the provider unless the useful counter runs out |
| `TageUpdate.WrongIsLearned` | Lab2-Branch-Predictor/predictor.cc:451-575 | and after any other round a table above the old provider provides the outcome, or all candidates were useful and nothing above the provider is any more |
| `Simulation.Simulate` | Lab2-Branch-Predictor/main.cc:50-92 | the driver counts, for each predictor, exactly the mispredictions of the conditional branches of the trace |
| `Simulation.MissesAreWrong` | Lab2-Branch-Predictor/main.cc:73-88 | each count is the number of branches that the predictor, having seen those before, gets wrong |
| `Simulation.ConditionalsInOrder` | Lab2-Branch-Predictor/main.cc:62-72 | the predictors see the conditional records, all of them, in order, and no others |
| `FlatMemory.SplitIsInvertible` | Lab1-Hazards/memory.h:105-130 | bucket, tag and offset of an address determine it |
| `FlatMemory.PteAddrSplits` | Lab1-Hazards/memory.h:113-116 | MEM_PTE_ADDR inverts the split for every tag and bucket |
| `FlatMemory.LoadAfterStore` | Lab1-Hazards/memory.h:149-164 | a store changes one byte of the flat space and allocates at most its page |
| `FlatMemory.LastWriteWins` | Lab1-Hazards/memory.h:149-164 | after any interleaving of reads and writes each address holds the last byte written there, or 0, and the pages are those written to |
| `FlatMemory.LoadAfterStoreBytes` | Lab1-Hazards/memory.c:168-176 | a run of stores, with addresses that wrap, reads back; other bytes stay |
| `PageTable.Memory.constructor` | Lab1-Hazards/memory.c:250-263 | the empty memory, every bucket empty, both counters 0 |
| `PageTable.Memory.MoveToFront` | Lab1-Hazards/memory.c:94-100 | relinking a found entry permutes its bucket as a move to the front, and the bucket stays one finite chain of distinct tags |
| `PageTable.Memory.Search` | Lab1-Hazards/memory.c:87-92 | the walk finds the entry of the page exactly if the page is allocated |
| `PageTable.Memory.Translate` | Lab1-Hazards/memory.c:77-107 | lookup never changes the contents; a found page is then first in its bucket, and the heads of the other buckets stay |
| `PageTable.Memory.Page` | Lab1-Hazards/memory.h:118-127 | a first-level hit and a full lookup give the same page; a miss is counted exactly when the page was not first |
| `PageTable.Memory.NewPage` | Lab1-Hazards/memory.c:109-135 | one zero page more, at the head of its bucket, and the page count follows |
| `PageTable.Memory.Tickle` | Lab1-Hazards/memory.h:132-137 | the page of the address is there afterwards, allocated only if it was not |
| `PageTable.Memory.ReadByte` | Lab1-Hazards/memory.h:149-154 | the byte of the flat memory, which stays as it was; heads of buckets and both counters follow the lookups |
| `PageTable.Memory.WriteByte` | Lab1-Hazards/memory.h:160-164 | the flat memory with that byte stored; heads of buckets and both counters follow the lookups |
| `PageCache.StepSays` | Lab1-Hazards/memory.h:118-164 | one access: two lookups, one for a read of a page that is not there; a miss exactly if another page heads the bucket; a page that is there heads it afterwards |
| `PageCache.AccessesMean` | Lab1-Hazards/memory.h:118-164 | after any accesses to the empty memory: each bucket is headed by the page of the last access to it that found or made its page; a miss was counted for each access to another page than that; and so were all lookups |
| `PageCache.MissesOncePerPage` | Lab1-Hazards/memory.c:77-107 | writes to pages with buckets of their own miss exactly as often as pages are allocated |
| `PageCache.AlternationMisses` | Lab1-Hazards/memory.c:77-107 | writes that change the page within one bucket every time miss every time |
| `MemoryAccess.UnitFaults` | Lab1-Hazards/memory.c:149-155 | bytes never fault; words fault exactly when misaligned |
| `MemoryLaws.FaultMeans` | Lab1-Hazards/memory.c:146-155 | bit by bit: an access fault exactly if the size has a bit in common with its predecessor or exceeds a page, and then an alignment fault exactly if the address has one in common with that predecessor |
| `MemoryAccess.Access` | Lab1-Hazards/memory.c:137-219 | the fault is that of the size and alignment tests, in their order; without one the transfer is complete, with one nothing moves |
| `MemoryLaws.CopyMeans` | Lab1-Hazards/memory.c:351-357 | byte by byte, what a copy in either direction leaves in buffer and memory; nothing for a negative count |
| `MemoryLaws.WholeWordsMean` | Lab1-Hazards/memory.c:371-377 | the part of a count that whole words make up |
| `MemoryAccess.CopyAppend` | Lab1-Hazards/memory.c:351-357 | a copy of i bytes followed by a copy of n is a copy of i + n |
| `MemoryAccess.CopyUnit` | Lab1-Hazards/memory.c:351-357 | one access of a copy moves its bytes in the direction of the command |
| `MemoryAccess.Bcopy` | Lab1-Hazards/memory.c:339-361 | a byte copy never faults and transfers all bytes, none when the count is negative |
| `MemoryAccess.Bcopy4` | Lab1-Hazards/memory.c:363-390 | a word copy equals the byte copy of its whole words on aligned addresses, and otherwise faults before moving anything; a negative count copies nothing |
| `MemoryAccess.Bzero` | Lab1-Hazards/memory.c:392-412 | all bytes of the run become 0, none when the count is negative |
| `MemoryAccess.StrcpyWrite` | Lab1-Hazards/memory.c:320-329 | the string and its terminator are stored |
| `MemoryAccess.StrcpyRead` | Lab1-Hazards/memory.c:309-318 | the bytes up to the first zero are fetched, and no others |
| `Eio.RecordedFlattens` | Lab1-Hazards/eio.c:528-558 | whether a transfer extends the last blob or starts a new one, the blobs flatten to what was recorded plus the transfer |
| `EioMachine.Recorder.Note` | Lab1-Hazards/eio.c:528-558 | the blob buffers hold the recording so extended, and never fill beyond maxsize |
| `EioMachine.Recorder.Append` | Lab1-Hazards/eio.c:535-540 | bytes added to the last blob leave all other blobs alone |
| `EioMachine.Recorder.Add` | Lab1-Hazards/eio.c:544-557 | a new blob goes to the end of the list |
| `EioMachine.Tracer.MemFn` | Lab1-Hazards/eio.c:490-565 | a traced access does what the untraced one does and is recorded; a read after a write is fatal |
| `Eio.RecordingsFlatten` | Lab1-Hazards/eio.c:490-565 | over a whole system call the blobs flatten to exactly the raw reads and the raw writes |
| `Eio.RawReadsHold` | Lab1-Hazards/eio.c:707-736 | what was read during a call of reads before writes is what the memory held when it started |
| `Eio.RawWritesPerform` | Lab1-Hazards/eio.c:781-807 | depositing the raw writes one by one leaves the memory that the call left |
| `Eio.AcceptsUnlessComplaint` | Lab1-Hazards/eio.c:654-736 | a transaction is accepted exactly if none of its checks fails; the first that fails is the one reported |
| `Eio.RerecordedReplays` | Lab1-Hazards/eio.c:593-602 | a replay that is itself recorded gives a transaction with the same input bytes and the same output bytes, which in every state is accepted exactly if the first is, and leads to the same state |
| `Eio.ByteByByteIsWhole` | Lab1-Hazards/memory.c:339-361 | a call that moves its data in copies of single bytes leaves the memory, reads the bytes and writes the bytes that the same transfers in one piece would |
| `EioMachine.CopiesNeverFault` | Lab1-Hazards/memory.c:297-361 | no access of such a call faults, and it records the same bytes: every system call handler moves its data by `mem_bcopy` and `mem_strcpy` |
| `EioMachine.ReplayNeverFaults` | Lab1-Hazards/eio.c:707-807 | nor does any access of a replay |
| `EioMachine.FaultedWriteIsReplayed` | Lab1-Hazards/eio.c:516-565 | for a caller with wider accesses, at any point of a call: replaying a recorded write meets the live memory if and only if the write did not fault, or its pages are allocated and each byte already has its value |
| `EioMachine.MisalignedWriteDiffers` | Lab1-Hazards/eio.c:516-565 | a two-byte write that faults and whose replay differs |
| `EioMachine.TracedCall` | Lab1-Hazards/eio.c:593-602 | performing the accesses of a call under the tracer: memory, recordings, and when it is fatal |
| `EioMachine.Machine.WriteTrace` | Lab1-Hazards/eio.c:570-630 | the transaction emitted and the state after the call; fatal exactly if a read follows a write |
| `EioMachine.Machine.CheckRegs` | Lab1-Hazards/eio.c:691-705 | the first register that differs from its record, if there is one |
| `EioMachine.CheckInputs` | Lab1-Hazards/eio.c:707-736 | memory inputs are accepted exactly if every recorded byte is in memory; the first one that is not is reported |
| `EioMachine.WriteOutputs` | Lab1-Hazards/eio.c:781-807 | memory outputs are deposited in order |
| `EioMachine.Machine.ReadTrace` | Lab1-Hazards/eio.c:632-811 | replay is refused exactly if count, PC, registers or memory differ from the record, with the first difference as the reason, and otherwise leaves the recorded outputs |
| `Eio.ReplayReproduces` | Lab1-Hazards/eio.c:570-811 | from the same state the replay of a recorded call passes every check and ends in the same memory, break point and registers |
| `EioTraces.ReadWord` | Lab1-Hazards/eio.c:690-700 | a stored value is read back by its low 32 bits, as a signed number |
| `EioTraces.TransactionSays` | Lab1-Hazards/eio.c:577-625 | a transaction holds the count, the PC, r2 to r7 before and after the call, the break point after it, and the bytes read and written |
| `EioTraces.AfterCall` | Lab1-Hazards/eio.c:600-615 | a call sets r2 to r7 to its results, the break point and the bytes that it writes, and nothing else |
| `EioTraces.AcceptanceMeans` | Lab1-Hazards/eio.c:683-736 | a state accepts a recorded call exactly if it has its count, its PC, the same r2 to r7, and in memory every byte that the call read |
| `EioTraces.ComplaintMeans` | Lab1-Hazards/eio.c:683-736 | the reason for a refusal is the first difference: count, PC, the lowest register, the first byte |
| `EioTraces.ReplayMeans` | Lab1-Hazards/eio.c:750-807 | the replay of a recorded call sets r2 to r7, the break point and the bytes written, and nothing else, in any state |
| `EioTraces.BlobsArePacked` | Lab1-Hazards/eio.c:487-558 | of blobs of single-byte accesses, one that ends where the next begins holds 256 bytes |
| `EioTraces.WrittenRun` | Lab1-Hazards/eio.c:528-558 | n consecutive bytes written one by one make (n + 255) / 256 blobs, all full but the last |
| `EioTraces.ReadRun` | Lab1-Hazards/eio.c:528-558 | so do n bytes read one by one |
| `EioSession.ReplayedIsLive` | Lab1-Hazards/eio.c:570-811 | a whole run, with any computation between the calls, replays to the state that the live run reached |
| `EioSession.ReplaySucceeds` | Lab1-Hazards/eio.c:633-811 | a run replays exactly if each transaction in turn is accepted |
| `EioSession.ReplayKeepsToTheRun` | Lab1-Hazards/eio.c:670-737 | a program that goes through the whole trace of another run makes its calls at the counts and PCs of that run, with the same values in r2 to r7, and finds every byte that the run read |
| `EioSession.FastForwardStops` | Lab1-Hazards/eio.c:813-840 | fast forward stops just past the first transaction with the count, or fails if there is none |
| `EioSession.RunSplits` | Lab1-Hazards/eio.c:570-840 | the trace of a run is the trace of its beginning followed by that of the rest |
| `EioSession.Forward` | Lab1-Hazards/eio.c:813-840 | the loop of fast forward computes just that |
| `EioSession.ResumeFromCheckpoint` | Lab1-Hazards/eio.c:813-840 | from any state from which the program would go on as after the k-th call: fast forward to the count of that call and replay lead to the same final state as the whole live run |
| `EioSession.EarlyCheckpointCannotResume` | Lab1-Hazards/eio.c:827-837 | a checkpoint taken before the first call, with count -1, can never be fast-forwarded to |
| `Checkpoint.WritePages` | Lab1-Hazards/eio.c:287-298 | the walk dumps every allocated page exactly once, so page_count is the number of records |
| `Checkpoint.LoadedIsOverlay` | Lab1-Hazards/eio.c:430-460 | reloading records byte by byte lays exactly their pages over what was there |
| `Checkpoint.RestoredMemory` | Lab1-Hazards/eio.c:430-460 | the reload restores the saved memory if and only if the memory loaded into had no page beyond the saved ones |
| `Checkpoint.ArchRoundTrip` | Lab1-Hazards/eio.c:250-285 | registers, counters and segment data survive the trip through external terms |
| `Checkpoint.ImageSays` | Lab1-Hazards/eio.c:219-285 | which part of the state is where in the image |
| `Checkpoint.StateSays` | Lab1-Hazards/eio.c:330-428 | which part of a well-formed image a state is taken from, cut to its width |
| `Checkpoint.CounterMeans` | Lab1-Hazards/eio.c:219-234 | counters are stored as 64-bit numbers |
| `Checkpoint.WriteCheckpoint` | Lab1-Hazards/eio.c:240-303 | the image describes all state and all pages |
| `Checkpoint.ReadCheckpoint` | Lab1-Hazards/eio.c:305-463 | an image is accepted exactly if it is well formed; then state and memory are those it describes |
| `Checkpoint.DumpAndRestore` | Lab1-Hazards/eio.c:240-463 | write then read: same registers, and the same memory exactly under the condition on old pages |
| `EioResume.LoadEio` | Lab1-Hazards/loader.c:163-214 | an EIO file and a checkpoint are accepted exactly if both images are well formed, the first one has count -1, and the count of the second is in the trace; then state, memory and rest of the trace are those that they describe |
| `EioResume.MachineSays` | Lab1-Hazards/eio.c:330-428 | what a machine takes from an image, each part cut to its width, and how many pages |
| `EioResume.LoadingMeans` | Lab1-Hazards/loader.c:178-206 | images and trace go together exactly if the first image has count -1 and some transaction the count of the second; simulation starts with what follows the first such transaction |
| `EioResume.ImageLoads` | Lab1-Hazards/eio.c:305-463 | the image of a machine, loaded over a memory with no page but pages of that machine, gives that machine again, memory included |
| `EioResume.ResumeFromImages` | Lab1-Hazards/loader.c:178-206 | images of the start of a recorded run and of a state after its k-th call, loaded one over the other into an empty memory, with the trace fast-forwarded: the machine starts in that state and replays to the final state of the live run |
| `StackImage.WordMeans` | Lab1-Hazards/loader.c:571-572 | a word in memory is made of its four bytes in the byte order of the target |
| `StackImage.PutEntry` | Lab1-Hazards/loader.c:587-596 | one pointer and the string that it leads to extend the part of the image written |
| `StackImage.FillArray` | Lab1-Hazards/loader.c:586-601 | a whole list: its pointers, the strings behind them, and the null pointer |
| `StackImage.InitStack` | Lab1-Hazards/loader.c:571-623 | memory becomes the old one with the contiguous image at the stack pointer; overflow is reported exactly if the image is longer than 16384 bytes |
| `StackImage.ImageParts` | Lab1-Hazards/loader.c:571-614 | argc, both arrays and both lists of strings are consecutive, hence disjoint, parts of the image |
| `StackImage.ImageDecodes` | Lab1-Hazards/loader.c:571-614 | from the stack pointer a program reads argc, then null-terminated arrays whose pointers lead to exactly the strings |
| `StackImage.LayoutDeterminesLists` | Lab1-Hazards/loader.c:571-614 | no two different pairs of lists leave the same stack |
| `Crc.GeneratorEntry` | Lab1-Hazards/misc.c:1149-1169 | the generator is 04c11db7: it is the entry of byte 1, and that of byte 0 is 0 |
| `Crc.Checksum.GenTab` | Lab1-Hazards/misc.c:1149-1169 | every table entry is the remainder of its byte |
| `Crc.TableByte` | Lab1-Hazards/misc.c:1185-1186 | one table step equals eight bit-serial steps |
| `Crc.Checksum.Crc` | Lab1-Hazards/misc.c:1171-1189 | the table-driven sum equals the bit-serial register fed the bytes low to high, high bit first |
| `Crc.StepAsCoded` | Lab1-Hazards/misc.c:1160-1164 | one step shifts, and subtracts 0x04c11db7 when a one falls out |
| `Crc.ClosedForm` | Lab1-Hazards/misc.c:1171-1189 | the sum of a word is the register, combined with the reversed bytes, stepped 32 times |
| `Crc.InjectiveInAccumulator` | Lab1-Hazards/misc.c:1171-1189 | different accumulators give different sums |
| `Crc.InjectiveInWord` | Lab1-Hazards/misc.c:1171-1189 | different words give different sums |
| `Crc.Checksum.CrcRegs` | Lab1-Hazards/machine.c:516-536 | the sum over all registers in order |
| `Crc.OneRegisterShows` | Lab1-Hazards/machine.c:516-536 | a change of exactly one register always changes the sum |
| `Crc.SwappedInFull` | Lab1-Hazards/misc.c:1183-1187 | the bytes of a word in the order in which they are fed |
| `Crc.RegsClosedForm` | Lab1-Hazards/machine.c:516-536 | the sum of the registers is the sum of what each contributes alone: its bytes, stepped 32 times for itself and for every register after it |
| `NumberText.LowDigit` | Lab1-Hazards/misc.c:400-413 | the low digit and the rest of a number whose high bit is set |
| `NumberText.DigitInInt` | Lab1-Hazards/misc.c:580-586 | the digit computed in truncated 32-bit arithmetic is the right one |
| `NumberText.DecimalDigits` | Lab1-Hazards/misc.c:572-589 | the digits stand at the end of the buffer |
| `NumberText.DigitsFit` | Lab1-Hazards/misc.c:448-449 | no conversion needs more than 22 digits |
| `NumberText.HexDigitLoop` | Lab1-Hazards/misc.c:630-647 | hexadecimal digits, none for zero |
| `NumberText.FormatSigned` | Lab1-Hazards/misc.c:547-589 | %ld as sign, padding and digits |
| `NumberText.FormatUnsigned` | Lab1-Hazards/misc.c:591-603 | %lu likewise, high bit included |
| `NumberText.FormatHex` | Lab1-Hazards/misc.c:610-647 | %lx likewise |
| `NumberText.FieldLength` | Lab1-Hazards/misc.c:694-741 | a field is as long as the larger of its width and its natural length |
| `NumberText.ValueOfDigits` | Lab1-Hazards/misc.c:572-589 | the digits of a number denote it, in every base |
| `NumberText.CutoffTest` | Lab1-Hazards/misc.c:855-857 | the overflow test by cutoff is exact in every base |
| `NumberText.DigitLoop` | Lab1-Hazards/misc.c:842-863 | overflow is flagged exactly if the value exceeds the maximum, and the accumulator never leaves the range, even afterwards |
| `NumberText.MyAtosq` | Lab1-Hazards/misc.c:787-892 | for every string and base, the number denoted, clamped, with end and errno |
| `NumberText.MyAtoq` | Lab1-Hazards/misc.c:894-985 | likewise unsigned |
| `NumberText.OutcomeIsClamp` | Lab1-Hazards/misc.c:874-885 | the result is the exact number clamped to the range; ERANGE exactly if it was clamped or is the smallest signed number |
| `NumberLaws.DigitMeans` | Lab1-Hazards/misc.c:842-852 | the value of each character as a digit, in either case |
| `NumberLaws.ValueMeans` | Lab1-Hazards/misc.c:855-862 | the number that digits denote, highest first |
| `NumberLaws.SpaceMeans` | Lab1-Hazards/misc.c:800-803 | the six characters that are passed over |
| `NumberLaws.ConversionMeans` | Lab1-Hazards/misc.c:787-985 | any string: nothing without digits, and otherwise the number that they denote, with its sign, cut to the range, with end and errno |
| `NumberLaws.TakenApart` | Lab1-Hazards/misc.c:787-985 | every string can be taken apart into blanks, sign, prefix, digits and rest as that calls for |
| `NumberLaws.DigitPrinted` | Lab1-Hazards/misc.c:630-647 | digits are printed 0 to 9 and then a to z |
| `NumberLaws.DigitsMean` | Lab1-Hazards/misc.c:572-589 | the digits of a number, lowest last, without leading zeros |
| `NumberLaws.SignedMeans` | Lab1-Hazards/misc.c:547-589 | a signed number: zeros behind the sign or blanks in front of it, up to the width |
| `NumberLaws.UnsignedMeans` | Lab1-Hazards/misc.c:591-603 | an unsigned number, padded likewise |
| `NumberLaws.HexMeans` | Lab1-Hazards/misc.c:610-647 | a hexadecimal number, padded likewise; zero is one digit |
| `NumberText.SignedRoundTrip` | Lab1-Hazards/misc.c:547-892 | every signed 64-bit number printed, however padded, is read back; the smallest one with ERANGE |
| `NumberText.UnsignedRoundTrip` | Lab1-Hazards/misc.c:591-985 | every unsigned one is read back |
| `NumberText.HexRoundTrip` | Lab1-Hazards/misc.c:610-985 | prefixed hexadecimal is read back if and only if the field is not padded with blanks |
| `Events.InsertedIsSorted` | Lab1-Hazards/eventq.c:90-105 | insertion keeps time order |
| `Events.QueueingOrder` | Lab1-Hazards/eventq.c:76-105 | after any queueing the pending events are sorted, are exactly those queued, and equal times are in reverse order of queueing |
| `Events.DueIsUpTo` | Lab1-Hazards/eventq.c:254-269 | serving from the head of a sorted queue takes exactly the events that are due, in order |
| `Events.ServiceComposes` | Lab1-Hazards/eventq.c:254-269 | serving up to t1 and then t2 >= t1 equals serving up to t2, in what remains and in what was done |
| `Events.RunSorted` | Lab1-Hazards/eventq.c:76-269 | over any run of queue, execute, remove and service the queue stays sorted by time |
| `Events.RunConserves` | Lab1-Hazards/eventq.c:76-269 | over any run the events still pending and those performed or removed are together, counted with multiplicity, those pending at the start and those queued |
| `Events.RunIds` | Lab1-Hazards/eventq.c:89-253 | over a run that starts with distinct identifiers two pending events come to share one if and only if an identifier is given out while a pending event still has it |
| `Events.ShortRunsNeverReuse` | Lab1-Hazards/eventq.c:89-253 | which cannot happen before the 32-bit counter has wrapped around |
| `Events.IdNamesEvent` | Lab1-Hazards/eventq.c:185-250 | while identifiers are distinct, each finds exactly the event it was given to |
| `Events.QueueThenTakeBack` | Lab1-Hazards/eventq.c:185-250 | removing the event just queued restores the queue if and only if no earlier event carries its identifier; then executing it does so too and applies its action |
| `Events.NextIdentifier` | Lab1-Hazards/eventq.c:88 | identifiers are given out in order and start again after 32 bits |
| `Events.ActionsMean` | Lab1-Hazards/eventq.c:161-181 | after the events performed, a bit is as the last one that touches it says, and a cell is its last setting, or its start, plus what was added since |
| `EventQueue.EventQueue.Locate` | Lab1-Hazards/eventq.c:89-92 | the loop stops at the insertion point |
| `EventQueue.EventQueue.TakeFree` | Lab1-Hazards/eventq.c:78-86 | the head of the free list, or a new descriptor, on no list |
| `EventQueue.EventQueue.Link` | Lab1-Hazards/eventq.c:93-105 | the pending chain with the descriptor at the insertion point |
| `EventQueue.EventQueue.Unlink` | Lab1-Hazards/eventq.c:194-203 | the pending chain without the descriptor |
| `EventQueue.EventQueue.Release` | Lab1-Hazards/eventq.c:208-210 | the free chain with the descriptor at its head |
| `EventQueue.EventQueue.Fill` | Lab1-Hazards/eventq.c:84-88 | the data of the new event are in the descriptor in hand, both lists stay as they were |
| `EventQueue.EventQueue.Accept` | Lab1-Hazards/eventq.c:78-105 | queueing refines the sequence and advances the identifier, which wraps after 32 bits; the free list gives up its head, or one descriptor is allocated |
| `EventQueue.EventQueue.Enqueue` | Lab1-Hazards/eventq.c:76-105 | the limit stops the program exactly if it is negative and no descriptor is free; otherwise the event is queued |
| `EventQueue.EventQueue.Perform` | Lab1-Hazards/eventq.c:194-213 | the event leaves the queue, its action is applied, and its descriptor is free |
| `EventQueue.EventQueue.Execute` | Lab1-Hazards/eventq.c:183-220 | executing refines the sequence, and reports whether the event was there |
| `EventQueue.EventQueue.Remove` | Lab1-Hazards/eventq.c:222-253 | removing likewise, without the action |
| `EventQueue.EventQueue.ServiceEvents` | Lab1-Hazards/eventq.c:255-269 | service performs exactly the due events, in order; every descriptor stays on exactly one of two disjoint acyclic lists |
| `SymbolTable.CompareFollowsAddresses` | Lab1-Hazards/symbol.c:185-190 | the sort comparison agrees with the order of addresses exactly for pairs whose difference fits 32 signed bits |
| `SymbolTable.ComputeSizes` | Lab1-Hazards/symbol.c:615-632 | sizes are gaps to the next symbol, the last one to the end of the segment |
| `SymbolTable.BindAddr` | Lab1-Hazards/symbol.c:701-760 | the search ends in every sorted table, and what it finds matches. It finds nothing if and only if nothing matches: for an exact address in every sorted table, within bounds in every one that is `Reachable` |
| `SymbolTable.LastIsFound` | Lab1-Hazards/symbol.c:722-757 | in every sorted table, whatever the sizes: if the last symbol at or below the address matches, something is found |
| `SymbolTable.CompleteIfReachable` | Lab1-Hazards/symbol.c:722-757 | in every sorted table, whatever the sizes and with any number of symbols at one address: bounds lookup finds a symbol for every address that some symbol covers, if and only if wherever a symbol reaches over a later one, the halving toward that one comes by a symbol that reaches as far or up to the next start |
| `SymbolTable.SizedEndByNext` | Lab1-Hazards/symbol.c:615-632 | with the sizes of its own segment each symbol, but the last, ends by the next address or has one byte only |
| `SymbolTable.SegmentComplete` | Lab1-Hazards/symbol.c:615-632 | so bounds lookup is complete in the tables of text symbols and of data symbols |
| `SymbolTable.BoundIsNearest` | Lab1-Hazards/symbol.c:730-737 | in such a table a symbol found by bounds is the nearest at or below the address |
| `AllSymbols.SymbolsCoverSegment` | Lab1-Hazards/symbol.c:615-632 | when the last symbol lies inside its segment, the symbols cover exactly the addresses from the first one to the end of the segment, if and only if no gap reaches half the address space and the segment ends inside it |
| `AllSymbols.ApartComplete` | Lab1-Hazards/symbol.c:615-632 | two segments of which the lower one ends at or below the first symbol of the upper one: bounds lookup in their tables put together is complete |
| `AllSymbols.MergedComplete` | Lab1-Hazards/symbol.c:615-632 | for segments that are so covered, one above the other, regardless of where the lower one ends, it is complete if and only if the upper one ends last, or the halving that always goes right comes by the last symbol of the lower one |
| `AllSymbols.SortedIsUnique` | Lab1-Hazards/symbol.c:548-549 | symbols with distinct addresses can be sorted by address in one way only |
| `AllSymbols.AllSymbolsComplete` | Lab1-Hazards/symbol.c:538-632 | hence the same if-and-only-if for the table of all symbols, which is sorted by itself, when no two symbols have the same address; for tied addresses and interleaved segments the exact condition is that of `SymbolTable.CompleteIfReachable` |
| `AllSymbols.MergedLookupMisses` | Lab1-Hazards/symbol.c:711-759 | two tables with an address inside the first symbol that bounds lookup does not find |
| `AllSymbols.TiedLookupMisses` | Lab1-Hazards/symbol.c:711-759 | likewise where two symbols have the same address |
| `SymbolTable.StrcmpMeans` | Lab1-Hazards/symbol.c:192-197 | names are ordered as in a dictionary |
| `SymbolTable.SortedByNeighbours` | Lab1-Hazards/symbol.c:192-197 | a table is sorted by name exactly if no symbol sorts before the one in front of it |
| `SymbolTable.BindName` | Lab1-Hazards/symbol.c:762-827 | the search by name ends and finds a symbol of that name if and only if there is one |
| `EvalLaws.WiderType` | Lab1-Hazards/eval.c:247-276 | an operation is carried out in the wider operand type, in the order int, unsigned, address, signed quadword, quadword |
| `EvalLaws.ConversionMeans` | Lab1-Hazards/eval.c:278-498 | a conversion keeps what fits, and else adds a multiple of two to the width |
| `EvalLaws.ComputedExactly` | Lab1-Hazards/eval.c:500-717 | a result that fits the wider type, as the operands do, is exact |
| `EvalLaws.IntegersExactly` | Lab1-Hazards/eval.c:500-717 | in particular two integers have an exact int result, if it fits |
| `EvalLaws.OperationMeans` | Lab1-Hazards/eval.c:500-717 | when an operation succeeds, and with which error it fails |
| `EvalLaws.NegationMeans` | Lab1-Hazards/eval.c:720-796 | type and value of a negated number, type by type |
| `EvalLaws.NegationOutcome` | Lab1-Hazards/eval.c:724-731 | symbols cannot be negated |
| `EvalValues.ResultTypeHolds` | Lab1-Hazards/eval.c:247-276 | the result type is symmetric and holds both operands unchanged, except negative ones when it is unsigned |
| `EvalValues.DivisionTruncates` | Lab1-Hazards/eval.c:665-717 | the exact quotient is truncated toward zero; it is in the range of the type except for the most negative number divided by -1, and then it is the value |
| `EvalValues.NonzeroStays` | Lab1-Hazards/eval.c:1015-1026 | the zero test before a division also covers the divisor converted to the result type |
| `EvalValues.ArithmeticIsModular` | Lab1-Hazards/eval.c:500-665 | through all conversions sums, differences and products are exact modulo the width of the result type |
| `EvalValues.NegateIsExact` | Lab1-Hazards/eval.c:720-796 | negation is exact if and only if the operand is not a non-zero address nor at the far end of a 64-bit type |
| `ScanLaws.KindMeans` | Lab1-Hazards/eval.c:84-115 | which characters begin which token |
| `ScanLaws.TokenMeans` | Lab1-Hazards/eval.c:141-206 | the next token in terms of characters: identifiers and numbers run as long as their characters go on, with signs after an e and letters to f after an x |
| `EvalGrammar.ScanIsSlice` | Lab1-Hazards/eval.c:145-206 | the scanner passes blanks and then exactly the text of the token |
| `EvalGrammar.IdentIsMaximal` | Lab1-Hazards/eval.c:158-166 | an identifier runs as far as it can |
| `EvalGrammar.DigitsAreOneToken` | Lab1-Hazards/eval.c:167-189 | a run of digits before an operator, parenthesis, blank or the end is one token |
| `EvalGrammar.ExprComplete` | Lab1-Hazards/dlite.h:82-90 | text that spells a derivation of the documented grammar evaluates to what it means, errors included, and exactly that text is consumed |
| `EvalGrammar.ExprSound` | Lab1-Hazards/eval.c:935-1067 | when no token consumed is invalid, a value computed is that of a derivation of exactly the text consumed, and no operator follows |
| `EvalGrammar.DerivedIffClean` | Lab1-Hazards/eval.c:935-1067 | a value computed is that of a derivation of exactly the text consumed if and only if no token consumed is invalid |
| `EvalGrammar.InvalidIsDropped` | Lab1-Hazards/eval.c:210-223 | a concrete text in which an invalid token is dropped and the sum computed across it |
| `Evaluator.EvalState.ReadToken` | Lab1-Hazards/eval.c:141-206 | kind, text and end of the next token, read character by character |
| `Evaluator.EvalState.GetNextToken` | Lab1-Hazards/eval.c:118-206 | the token looked at, or else the next in the text, with its kind, text and end |
| `Evaluator.EvalState.PeekNextToken` | Lab1-Hazards/eval.c:208-223 | looking ahead keeps the place, except past an invalid token |
| `Evaluator.EvalState.Factor` | Lab1-Hazards/eval.c:935-988 | value or error and place are those of recursive descent on the text |
| `Evaluator.EvalState.Term` | Lab1-Hazards/eval.c:993-1031 | likewise, with the zero test of a divisor |
| `Evaluator.EvalState.Expr` | Lab1-Hazards/eval.c:1034-1067 | likewise for sums |
| `Evaluator.EvalState.EvalExpr` | Lab1-Hazards/eval.c:1093-1124 | for every text, value or error, and the reported end is just past the last token consumed |
| `ResourcePool.FiledExact` | Lab1-Hazards/resource.c:103-119 | a template is on the list of a class exactly if it is an active template of that class of some instance |
| `ResourcePool.FiledInOrder` | Lab1-Hazards/resource.c:103-119 | a list runs through the units in order, and through the templates of each in order |
| `ResourcePool.FiledMeetsDemand` | Lab1-Hazards/resource.c:64-119 | each list has as many entries as the unit descriptors call for |
| `ResourcePool.Pool.FillInstances` | Lab1-Hazards/resource.c:78-92 | as many instances of each kind as asked for, in order, all free |
| `ResourcePool.Pool.FillTable` | Lab1-Hazards/resource.c:103-119 | the lists of all classes |
| `ResourcePool.Pool.constructor` | Lab1-Hazards/resource.c:59-122 | as many free instances as described, filed under every class they serve |
| `ResourcePool.Pool.Get` | Lab1-Hazards/resource.c:130-154 | the earliest free template of the class; none exactly if all are busy |
| `ResourcePool.Pool.NoneFreeMeansAllBusy` | Lab1-Hazards/resource.c:130-154 | none is offered exactly if every unit that serves the class is busy |

## Left out

- Files, pipes, compression, signals and the concrete text of EXO terms: terms are datatypes, a file is a sequence of them; libexo is not part of this model.
- Host system calls: a call is any list of reads and writes with register results.
- Recording while replaying another trace (`eio.c:597-598`) is described on values (`Eio.RerecordedReplays`); `EioMachine.Machine` has no second trace.
- EioMachine.TracedCall: no access of the call faults, which holds of every call that the program makes (`EioMachine.CopiesNeverFault`); for wider accesses `EioMachine.FaultedWriteIsReplayed` describes a single write, and a read that faults would record whatever the host's buffer held.
- EioMachine.Machine.WriteTrace: likewise.
- EioMachine.Machine.ReadTrace: exit calls, which are executed, and the echo of what the program prints are not described.
- Checkpoint.ReadCheckpoint: an image has its parts in typed fields, so the tests on the kinds of its terms have no counterpart.
- EioResume.LoadEio: no tests on the number of arguments and on whether the files are EIO files (`loader.c:163-189`); images are typed as for `Checkpoint.ReadCheckpoint`.
- Instruction semantics: `machine.def` is not part of this model; what a program computes between two system calls is an arbitrary function.
- Floating point: evaluator values of type float and double, `%f`, and all statistics.
- Out of memory, `fatal` and `panic` paths; where the program stops with an error that a caller can see, the model returns it.
- EventQueue.EventQueue.Execute: no callback events, and with them no re-entry into the queue; the other events add or assign integers, without wrap-around.
- EventQueue.EventQueue.ServiceEvents: likewise.
- EvalValues.DivisionTruncates: for the most negative number divided by -1 nothing is said of the value; C leaves it undefined, and the model's wraps around.
- Evaluator.EvalState.Factor: constants and identifiers get their values from any two functions, in place of `strtol` and the caller's evaluator.
- The 512-byte token buffer of the evaluator is unbounded.
- StackImage.InitStack: argument lists that would run past the end of the 32-bit address space are not described.
- StackImage.ImageParts: likewise.
- StackImage.ImageDecodes: likewise.
- AllSymbols.SymbolsCoverSegment: a last symbol outside its segment has a size that wraps; what it covers then is not described.
- ResourcePool.Pool.constructor: with more than eight templates in one class the program writes past the end of its row.
- Sorting of the symbol tables is the C library's `qsort`; the tables are taken as sorted.
- The allocation alternator of TAGE is an unbounded integer, so its overflow after 2^31 allocations is not described; the seven tables are rows of one array, local C arrays are sequences, and the tests of seven numbered variables are loops.
- `%d`, `%u` and `%x` without `l`, octal, strings and characters in formats.
- The interactive debugger, options, pipeline traces, address ranges, sparse statistics, ECOFF and BFD parsing, byte-swapping hosts, and the copies of these files in the Tomasulo laboratory.
