# Verification of the LCEVC decoder core

This project models parts of the V-Nova LCEVC decoder SDK in Dafny and proves what they promise. `dafny verify
dfyconfig.toml` checks it.

| part | files | main result |
|---|---|---|
| Huffman decoding | `HuffmanStream`, `HuffmanCodes`, `HuffmanTables`, `HuffmanDecode`, `HuffmanTriple`, `HuffmanTripleDecode`, `HuffmanEncoding`, `HuffmanInit`, `HuffmanTermination`, with `Bits`, `Pow2`, `Symbols` | the triple table, the look-up table and the list search all agree with decoding one symbol at a time by prefix matching, which undoes encoding |
| Rolling arena | `ArenaSpec`, `ArenaSafety`, `ArenaRuns`, `ArenaReuse`, `RollingArena` | live allocations never overlap, exactly as long as no allocation wraps and ends on `bufferBack` or needs a seventeenth buffer; exactly when memory is reused, grown and given back |
| Task pool | `TaskPoolState`, `TaskPoolSteps`, `TaskPoolWakeUp`, `TaskPoolOperations`, `TaskPoolRuns`, `TaskPoolResults`, `TaskPool` | in every interleaving each iteration is handed to a worker exactly once, completion is called once, waiting is for the first unmet input, no task is lost, and a done task and its output have what its functions returned last |
| Transform units | `TransformUnit`, `TransformUnitOrder`, `TransformUnitAligned`, `TransformUnitLimit`, `TransformUnitSurface` | the block raster is a bijection in order, and covers each pixel once; exactly when the aligned index is right and within its asserted bound, and what happens otherwise |
| Command buffer | `CmdBufferFormat`, `CmdBufferSplit`, `CmdBufferBlocks`, `CmdBuffer` | what is appended is read back, splitting for workers keeps its meaning under every interleaving, and workers write in different 32x32 squares |
| Decode loop | `DecodeLoop`, `DecodeCommands` | skipping common zero runs is dense decoding, and exactly when each residual is applied at its own transform unit |
| Run-length data | `EntropyRle` | the decoders undo an encoder |
| Bit reader | `Bitstream` | the next bits across words and short tails; ue(v) codes |
| Chunks | `ChunkLayout` | one place for each chunk, inside the memory allocated |

Objects that the source updates in place are classes (`HuffmanStream`, `LdcMemoryAllocatorRollingArena`,
`LdcTaskPool`, `LdeCmdBufferCpu`, `EntropyDecoder`, `BitStream`), and its loops are loops; each method is proved
against a specification, and the results are proved of the specification. Bytes are read as a sequence of bits padded
with zeros (`Bits`), and shifts and masks are written as products, quotients and remainders.

These promises of the source do not hold on all inputs. The project says exactly when they do, and has an input for
each:

- An arena allocation that wraps to the start of the buffer and ends exactly on `bufferBack` leaves front equal to
  back, which reads as empty (`AllocInvIff`). The next allocations are then given the reserved bytes of live ones, and
  their own bytes if they are aligned alike (`LandingOverlaps`, `EmptyLandingOverlaps`), and this can be reached from
  the start (`LandingReachable`, `OverlapReachable`).
- That the arena has a record for a new buffer is only logged when it is not so (`VNCheck`), and the record of the
  17th is written past the array (`AllocSoundIff`). An arena of 1024 bytes gets there in 16 requests
  (`RecordsRunOut`).
- `ldeTuIndexBlockAlignedIndex` counts the right edge twice for some units of a partial bottom row
  (`IndexIsAlignedIff`). The place the applicator finds for such a unit is not its own (`AlignedPlaceIff`), and need
  not be on the surface (`DoubleCountedExample`). The bound asserted on the result can also fail (`LimitIff`,
  `LimitExample`).
- A jump between commands of 2^24 or more transform units, which `ldeCmdBufferCpuAppend` asserts away, is cut to 24
  bits (`DecodeEncoded`), and the residual is added somewhere else (`ResidualsLandWhereDecoded`). Tiles large enough
  for that are accepted (`JumpsFitIff`, `CutJumpExample`).
- The run-length loop of `huffmanTripleDecode` need not stop on the zeros after the end of the data, or on zero bytes
  in it (`RunsEndIff`, `EndlessRunExample`).
- The runs that `huffmanTripleDecode` and the temporal run-length decoder return are those of the stream exactly when
  they are below 2^31 (`RunHeldIff`, `LongRunExample`; `DecodeAllTemporal`, `LongTemporalExample`).
- `huffmanStreamReadBits` refuses a read of more bits than remain, except when padding is in the word and the word
  holds that many bits (`ReadBits`, `OverreadExample`).
- `bitstreamReadBits` refuses a read of more bits than remain only at a word boundary or in the last word (`ReadBits`,
  `OverrunExample`).

Preconditions on alphabets follow section 9.2.1 of ISO/IEC 23094-2: complete codes of at most 255 symbols and 25 bits
whose signalled maximum length is attained, single symbols, and empty alphabets.

## Model

| member | source | states |
|---|---|---|
| `HuffmanBitStream.ExtractIsPeek` | src/enhancement/src/huffman.h:202-206 | bits taken out of a word of 32 stream bits are the bits at that place in the stream |
| `HuffmanBitStream.HuffmanStream.constructor` | src/enhancement/src/huffman.c:480-492 | a new stream is an empty window at bit 0 |
| `HuffmanBitStream.HuffmanStream.AdvanceByNBits` | src/enhancement/src/huffman.h:216-239 | topping up a window by bits, to at most 25, keeps the position; the word then holds the next bits of the data padded with zeros; the window moves to the start of the word, by whole bytes, only if it would not fit |
| `HuffmanBitStream.HuffmanStream.ShiftLeftOneByte` | src/enhancement/src/huffman.h:230-236 | one turn of the shifting loop moves the window on by a byte of the data, or by a zero byte after its end |
| `HuffmanBitStream.ShiftInByte` | src/enhancement/src/huffman.h:230-234 | a word of 32 stream bits with a byte shifted in is the word 8 bits later |
| `HuffmanBitStream.HuffmanStream.AdvanceToNthBit` | src/enhancement/src/huffman.h:250-260 | returns the next n bits from the position, for n and windows up to 25, and consumes nothing |
| `HuffmanBitStream.HuffmanStream.ReadBits` | src/enhancement/src/huffman.h:277-286 | reads and consumes the next n bits, or fails and reads nothing, by the remaining-bits count; a read of more bits than are left is accepted exactly when all the data is in the word and the word has room for that many bits |
| `HuffmanBitStream.HuffmanStream.OverreadExample` | src/enhancement/src/huffman.h:277-286 | of one byte, 5 bits are read, and a read of 25 of the 3 bits left is accepted |
| `HuffmanBitStream.RemainingBitsExact` | src/enhancement/src/huffman.h:187-192 | the remaining-bits count is the number of unread bits exactly while no padding has been shifted in |
| `HuffmanBitStream.HuffmanStream.ConsumedBytes` | src/enhancement/src/entropy.c:322-326 | the consumed byte count is the position rounded up to bytes |
| `HuffmanCodes.CodeFromEnd` | src/enhancement/src/huffman.c:83-117 | the code assigned longest first, one above the last or shifted down to a shorter length, is the number of longer-code intervals below it divided by its own interval |
| `HuffmanCodes.AssignedCodesComplete` | src/enhancement/src/huffman.c:83-117 | sorted lengths with Kraft sum 1 get a complete code: each code times its interval is where the later intervals end |
| `HuffmanCodes.CodesFitEightBits` | src/enhancement/src/huffman.h:79-82 | every code is below the number of symbols that follow it and fits in its own length, so eight bits are enough |
| `HuffmanCodes.CodeInterval` | src/enhancement/src/huffman.c:375-377 | the words of n bits that start with a code form one interval, directly above the intervals of all later codes |
| `HuffmanCodes.CoveringEntry` | src/enhancement/src/huffman.c:375-377 | codes of at most n bits fill the top of the n-bit words with no gap: a word is covered exactly when it is at or above the floor of the short codes |
| `HuffmanCodes.MatchUnique` | src/enhancement/src/huffman.c:83-117 | no two code words start the same stream: the code is prefix-free |
| `HuffmanCodes.MatchExists` | src/enhancement/src/huffman.c:83-117 | every stream starts with some code word |
| `HuffmanTables.GenerateCodes` | src/enhancement/src/huffman.c:104-117 | stores exactly the codes of the specification, and nothing past the list |
| `HuffmanTables.GenerateCodesAndIndices` | src/enhancement/src/huffman.c:83-100 | stores the codes, and for each length in use where its run of entries ends |
| `HuffmanTables.DetermineIdxOfEachBitSize` | src/enhancement/src/huffman.c:159-169 | records for each length in use where its run of entries ends |
| `HuffmanTables.GenerateCodesAndLut` | src/enhancement/src/huffman.c:123-157 | every word of ten bits that starts with a short code has that entry; all lower ones are empty; longer codes stay in the list from the returned index on |
| `HuffmanDecode.SearchRun` | src/enhancement/src/huffman.c:534-565 | the binary search over one length finds the code if it is there and otherwise stops, because codes of one length are consecutive integers |
| `HuffmanDecode.ManualDecode` | src/enhancement/src/huffman.c:520-570 | finds the entry whose code word the stream starts with and consumes that word; fails only if no entry matches |
| `HuffmanDecode.SuffixSearchable` | src/enhancement/src/huffman.c:408-428 | the end of a complete code, which is what the decoders keep in lists, is what the search needs |
| `HuffmanDecode.ListMatch` | src/enhancement/src/huffman.c:526-566 | an entry of a list kept from position `cut` on matches exactly when it is the symbol of the reference decoding |
| `HuffmanDecode.LutEntryMatches` | src/enhancement/src/huffman.c:596-608 | the table entry of the next ten bits is the entry whose code word they start with, or is empty and the code is longer |
| `HuffmanDecode.LutDecode` | src/enhancement/src/huffman.c:596-608 | returns the entry of the next ten bits and consumes its length, or nothing |
| `HuffmanDecode.ManualDecodeMaybeSingle` | src/enhancement/src/huffman.c:572-583 | decodes the reference symbol and consumes its code word, for single symbols too |
| `HuffmanDecode.LutThenListDecode` | src/enhancement/src/huffman.c:694-702 | table first, then list, is reference decoding for every alphabet and stream |
| `HuffmanDecode.SingleDecode` | src/enhancement/src/entropy.c:85-101 | single symbol, then table, then list is reference decoding; it fails exactly for the empty alphabet |
| `HuffmanTriples.IterateRls` | src/enhancement/src/huffman.c:320-380 | fills the range of an LSB with what decoding up to two run-length symbols from each index gives, and marks what does not fit |
| `HuffmanTriples.IterateRlsLoopBody` | src/enhancement/src/huffman.c:287-316 | the entries of one run-length code are complete, or continue with one more run-length symbol |
| `HuffmanTriples.RangesDisjoint` | src/enhancement/src/huffman.c:394-405 | the index ranges of different LSB codes do not meet |
| `HuffmanTriples.TripleTableAssign` | src/enhancement/src/huffman.c:382-436 | the table says of every index what its LSB code and the bits after it decode to; the LSBs that do not fit stay as a list |
| `HuffmanTripleDecoder.TripleRefBound` | src/enhancement/src/huffman.c:612-705 | a reference result does not depend on the bound on run-length symbols once there is one |
| `HuffmanEncoding.SymbolRoundTrip` | src/enhancement/src/huffman.c:520-583 | a symbol is decoded at a position exactly when its code word is there, and is as long as that |
| `HuffmanEncoding.TripleOfSymbols` | src/enhancement/src/huffman.c:612-705 | decoding a coefficient from code words is decoding the symbols they stand for as run-length data: the first in the LSB alphabet, the second of a two-symbol value in the MSB alphabet, the others in the run-length alphabet |
| `HuffmanEncoding.CoefficientRoundTrip` | src/enhancement/src/huffman.c:612-705 | every coefficient in [-8192, 8191] with a run below 2^31, encoded as code words anywhere in a stream, is what the reference decodes there, and no bit more; the 32-bit counter holds its run |
| `HuffmanTripleDecoder.CountedZerosAgree` | src/enhancement/src/huffman.c:623-629 | counting the leading zeros of 23 bits, with both limits, gives the count of the LSB code word that starts there |
| `HuffmanTripleDecoder.IndexInRange` | src/enhancement/src/huffman.c:631-636 | the index formed from the stream lies in the range of an LSB exactly when that LSB is the one decoded |
| `HuffmanTripleDecoder.EntryAt` | src/enhancement/src/huffman.c:638-643 | the entry at the index is the one written for the LSB decoded |
| `HuffmanTripleDecoder.OverflowAt` | src/enhancement/src/huffman.c:408-436 | if the entry is empty, the LSB decoded is in the overflow list |
| `HuffmanTripleDecoder.RunSpecSound` | src/enhancement/src/huffman.c:320-380 | what an entry says of its index is what decoding run-length symbols from the stream gives |
| `HuffmanTripleDecoder.ReadTableIndex` | src/enhancement/src/huffman.c:617-636 | the index of the table entry for the current position; nothing is consumed |
| `HuffmanTripleDecoder.SeekRunLengths` | src/enhancement/src/huffman.c:690-702 | the loop reads the rest of the run that the reference reads, and returns what 32 bits hold of it |
| `HuffmanTripleDecoder.TripleDecode` | src/enhancement/src/huffman.c:612-705 | for all valid alphabets and all streams, the same coefficient and consumed bits as decoding LSB, optional MSB and run-length symbols one at a time, and what 32 bits hold of the same zero run; failure exactly when the reference meets an empty alphabet |
| `HuffmanInit.InitializeWithLut` | src/enhancement/src/huffman.c:496-518 | from a sorted header, a table and list that decode its alphabet |
| `HuffmanInit.InitializeTriple` | src/enhancement/src/huffman.c:438-476 | from three sorted headers, a state to which the main decoding result applies |
| `HuffmanTermination.RunNeverEnds` | src/enhancement/src/huffman.c:694-702 | if the symbol of the all-zero code word, or the single symbol, has bit 7 set, no run that goes on when only zero bits are left ever ends, whatever the data before them is |
| `HuffmanTermination.RunsEndIff` | src/enhancement/src/huffman.c:694-702 | the run-length loop stops on every stream that is not empty, from every place in it, exactly when that symbol has bit 7 clear |
| `HuffmanTermination.EndlessRunExample` | src/enhancement/src/huffman.c:694-702 | an alphabet of three symbols, in the order of the source's sort, for which it does not stop on a stream of one zero byte |
| `HuffmanTermination.RunHeldIff` | src/enhancement/src/huffman.c:612-705 | the run the decoder returns with a coefficient is that of the stream exactly when that is below 2^31, as it is whenever the stream gives at most four run-length symbols |
| `HuffmanTermination.LongRunExample` | src/enhancement/src/huffman.c:612-705 | a coefficient in one byte with five run-length symbols and a run of 2164392960, for which the decoder returns 2^32 less |
| `HuffmanTermination.CoefficientExists` | src/enhancement/src/huffman.c:612-705 | with such an alphabet every coefficient has a result |
| `ArenaSpec.DoublingFits` | src/common/src/rolling_arena.c:138-164 | an allocation fits after at most two buffers have been added |
| `ArenaSafety.AllocInvIff` | src/common/src/rolling_arena.c:123-197 | an allocation keeps the invariant (blocks in their slots, disjoint, counted) exactly when it does not wrap and end on bufferBack |
| `ArenaSafety.AllocSoundIff` | src/common/src/rolling_arena.c:51-197 | an allocation keeps the invariant and a record for every buffer exactly when it neither wraps and ends on bufferBack nor needs a seventeenth buffer |
| `ArenaSafety.FreeInv` | src/common/src/rolling_arena.c:199-251 | freeing any live allocation, in any order, keeps the invariant |
| `ArenaSafety.LandingBreaks` | src/common/src/rolling_arena.c:152-155 | a wrapped allocation that ends on bufferBack breaks it |
| `ArenaRuns.RunSound` | src/common/src/rolling_arena.c:123-251 | every run of allocations and frees without such a landing, and without such a need, keeps the invariant and at most 16 buffers |
| `ArenaRuns.RoundUpIs` | src/common/src/rolling_arena.c:188-189 | rounding a pointer up gives an aligned one, less than the alignment further on |
| `ArenaRuns.PointerInside` | src/common/src/rolling_arena.c:133-134 | the pointer handed out and the bytes behind it lie in the reserved bytes, in a buffer that has not been released |
| `ArenaRuns.LiveBytesDisjoint` | src/common/src/rolling_arena.c:123-251 | after any such run from the start, the aligned bytes of the live allocations are pairwise disjoint, inside their buffers, and in buffers not released, wherever the parent allocator puts the buffers, also in memory that a released one had |
| `ArenaRuns.LandingOverlaps` | src/common/src/rolling_arena.c:152-155 | after a landing on live blocks, the next allocation that fits is given reserved bytes of the oldest of them, and its own bytes, wherever the buffers are, if the alignments are equal |
| `ArenaRuns.EmptyLandingOverlaps` | src/common/src/rolling_arena.c:152-155 | after a landing on an empty ring, an allocation that does not fit behind the new block and is no longer than it is given the block's reserved bytes, and its own bytes if the alignments are equal; it lands only if it is as long |
| `ArenaRuns.LandingReachable` | src/common/src/rolling_arena.c:152-155 | a landing can be reached from the start: two allocations of 37 bytes in 256, the first freed, a third of the same size |
| `ArenaRuns.OverlapReachable` | src/common/src/rolling_arena.c:152-155 | and a fourth and the second, which is live, then share bytes, wherever the buffer is |
| `ArenaRuns.RecordsRunOut` | src/common/src/rolling_arena.c:51-70 | from 1024 bytes, 15 requests, each as long as the buffer, are safe and leave 16 buffers; the next one adds a seventeenth, of 2^26 bytes |
| `ArenaReuse.ReusedIff` | src/common/src/rolling_arena.c:138-164 | an allocation adds no buffer exactly when it fits in front of the ring, to the end of the memory or of the free part, or before the ring if that has not wrapped; and it goes to the first of these |
| `ArenaReuse.GrowsTo` | src/common/src/rolling_arena.c:156-162 | any other is placed at the start of a buffer that is the least doubling to hold what was free and the request; a request of exactly that size, which takes a full ring, gets one twice as large |
| `ArenaReuse.ReleasedIff` | src/common/src/rolling_arena.c:199-251 | freeing a block hands its buffer back exactly when it was the last block in it and the buffer is not active; no other is handed back |
| `ArenaReuse.RunOldest` | src/common/src/rolling_arena.c:199-251 | after every safe run the oldest slot kept is that of a live block, so none is kept when nothing is live |
| `RollingArena.LdcMemoryAllocatorRollingArena.constructor` | src/common/src/rolling_arena.c:72-110 | one empty buffer and an empty slot ring |
| `RollingArena.LdcMemoryAllocatorRollingArena.DoubleSlots` | src/common/src/rolling_arena.c:31-49 | the map from allocation index to slot is unchanged, in a wrapped and in an unwrapped ring |
| `RollingArena.LdcMemoryAllocatorRollingArena.AddBuffer` | src/common/src/rolling_arena.c:51-70 | the new buffer is active and empty, whether or not it has a record; says whether it has one |
| `RollingArena.LdcMemoryAllocatorRollingArena.FindRoom` | src/common/src/rolling_arena.c:138-164 | the loop ends after at most two buffers and has then taken the bytes the specification takes; says whether all buffers have records |
| `RollingArena.LdcMemoryAllocatorRollingArena.Allocate` | src/common/src/rolling_arena.c:123-197 | leaves the state, block and index of the specification; the block is aligned as asked, to at least 64; says whether all buffers have records |
| `RollingArena.LdcMemoryAllocatorRollingArena.Free` | src/common/src/rolling_arena.c:199-251 | leaves the state of the specification, through both loops over empty slots |
| `RollingArena.TrialGrown` | src/common/src/rolling_arena.c:138-164 | the first buffer that fits is the one the specification grows to, and the third always does |
| `TaskPoolState.FirstUnmet` | src/common/src/task_pool.c:199-227 | the first input that is not met, or the number of inputs |
| `TaskPoolSteps.Split` | src/common/src/task_pool.c:341-354 | the parts cut the iterations into consecutive, non-empty pieces |
| `TaskPoolSteps.DetachInv` | src/common/src/task_pool.c:170-195 | taking the head of a list being woken keeps the invariant, and shortens the work left by its distance to the end of its inputs |
| `TaskPoolSteps.ParkInv` | src/common/src/task_pool.c:417-439 | putting a task on the list of its first unmet input keeps the invariant |
| `TaskPoolSteps.IssueInv` | src/common/src/task_pool.c:329-355 | queueing the parts of a task whose inputs are met keeps the invariant |
| `TaskPoolSteps.CompleteInv` | src/common/src/task_pool.c:244-254 | a task that is done, with its output met, keeps the invariant |
| `TaskPoolWakeUp.Schedule` | src/common/src/task_pool.c:370-440 | scheduling a task, with all the wake-ups that follow, terminates, keeps the invariant and leaves no task unscheduled |
| `TaskPoolWakeUp.MakeReady` | src/common/src/task_pool.c:320-364 | the same for readying a task, which for a null task finishes it |
| `TaskPoolWakeUp.Finish` | src/common/src/task_pool.c:244-260 | the same for finishing a task and meeting its output, both with the value given, unless the output was met before |
| `TaskPoolWakeUp.Wake` | src/common/src/task_pool.c:170-195 | the same for waking all tasks that wait for a dependency; other lists being woken are not touched |
| `TaskPoolWakeUp.WokenKeeps` | src/common/src/task_pool.c:187-194 | rescheduling the head of a list leaves exactly the rest of that list |
| `TaskPoolOperations.AddDependencyOk` | src/common/src/task_pool.c:915-931 | a new dependency is unmet and nothing else changes |
| `TaskPoolOperations.MeetDependency` | src/common/src/task_pool.c:1005-1015 | a dependency that was met is left as it is; another is met with its value, nothing that has started changes, and the invariant is kept |
| `TaskPoolOperations.AddTask` | src/common/src/task_pool.c:43-112 | adding a task with the inputs, output, functions and iterations asked for changes nothing that has started, and keeps the invariant |
| `TaskPoolOperations.DeferTask` | src/common/src/task_pool.c:1104-1161 | the child has the inputs and the output of the parent and the completion and iterations asked for, the parent has no output, and the invariant is kept |
| `TaskPoolOperations.StartPartOk` | src/common/src/task_pool.c:458-469 | taking a part off the queue keeps the invariant, and the assertions on the task state hold |
| `TaskPoolOperations.CompletedIff` | src/common/src/task_pool.c:296-299 | a task has completed all its iterations exactly when all its parts have returned |
| `TaskPoolOperations.EndPart` | src/common/src/task_pool.c:288-313 | the return of a part finishes the task, and its output, with the value returned, exactly when it was the last and there is no completion function; otherwise nothing is finished or met; the invariant is kept |
| `TaskPoolOperations.EndCompletion` | src/common/src/task_pool.c:302-313 | the return of the completion function finishes the task, and its output, with its value, and keeps the invariant |
| `TaskPoolRuns.EachIterationOnce` | src/common/src/task_pool.c:329-355 | in every interleaving, each iteration of a readied task belongs to exactly one part, which has been handed to a worker once, or is in the queue, once, and has not been handed to any; when the task is done it has been handed out once |
| `TaskPoolRuns.StartedOnce` | src/common/src/task_pool.c:458-469 | in every run, a part that has left the queue has been handed to a worker exactly once, and never goes back |
| `TaskPoolRuns.CompletionOnce` | src/common/src/task_pool.c:296-313 | in every interleaving, the completion function is called at most once, after all parts have returned, and has been called once when the task is done |
| `TaskPoolRuns.WaitsOnFirstUnmet` | src/common/src/task_pool.c:370-440 | in every interleaving, a task waits exactly while an input is unmet, and is then on the list of the first such input, once, and on no other |
| `TaskPoolRuns.InputsBeforeParts` | src/common/src/task_pool.c:199-211 | in every interleaving, no part of a task exists before all its inputs are met |
| `TaskPoolRuns.PendingIsNotDone` | src/common/src/task_pool.c:244-249 | in every interleaving, pendingTaskCount is the number of tasks not done |
| `TaskPoolRuns.IdleMeansWaiting` | src/common/src/task_pool.c:444-477 | no task is lost: when nothing is queued or running, every task is done or waits for an unmet input |
| `TaskPoolRuns.IdleAndMetIsDone` | src/common/src/task_pool.c:559-579 | so if all inputs are met, an idle pool has no pending task |
| `TaskPoolRuns.MetByDoneTask` | src/common/src/task_pool.c:250-254 | a dependency no caller met is met exactly when a task with that output is done, with its value |
| `TaskPoolRuns.RunStable` | src/common/src/task_pool.c:244-314 | however a run goes on, a done task stays as it is, a task keeps its inputs, functions, iterations and parts and each part only moves from the queue to a worker and back, a met dependency keeps its value, and the count of completion calls never goes back |
| `TaskPoolRuns.DeferMovesOutput` | src/common/src/task_pool.c:1116-1126 | the child becomes the only producer of its parent's output |
| `TaskPoolRuns.DeferredOutput` | src/common/src/task_pool.c:1104-1161 | however the run goes on, an output deferred to a child is met exactly when the child is done |
| `TaskPoolResults.DoneWithLastResult` | src/common/src/task_pool.c:242-314 | in every interleaving, a done task has the value its functions returned last, or 0 if it has none, and so has an output that is its alone |
| `TaskPoolResults.ReadiedParts` | src/common/src/task_pool.c:341-354 | a task is split into no more parts than there are threads, all but the last of the least size that makes that possible |
| `TaskPoolResults.LastWaitsFirst` | src/common/src/task_pool.c:432-438 | a task that has to wait goes to the head of the list of its first unmet input, and nothing else changes |
| `TaskPool.LdcTaskPool.constructor` | src/common/src/task_pool.c:479-521 | an empty pool |
| `TaskPool.LdcTaskPool.ScheduleTask` | src/common/src/task_pool.c:370-440 | leaves the state of the specification, for a new task and for the head of a list |
| `TaskPool.LdcTaskPool.ReadyTask` | src/common/src/task_pool.c:320-364 | leaves the state of the specification |
| `TaskPool.LdcTaskPool.SplitTask` | src/common/src/task_pool.c:341-354 | the loop produces the parts and queue entries of the specification |
| `TaskPool.LdcTaskPool.FinishTask` | src/common/src/task_pool.c:244-260 | leaves the state of the specification |
| `TaskPool.LdcTaskPool.DependencyMet` | src/common/src/task_pool.c:170-195 | the wake-up loop terminates in the state of the specification, and each turn leaves the rest of the list in place |
| `TaskPool.LdcTaskPool.TaskDependencyAdd` | src/common/src/task_pool.c:915-931 | returns a dependency that is not met |
| `TaskPool.LdcTaskPool.TaskDependencyMet` | src/common/src/task_pool.c:1005-1015 | leaves the state of the specification |
| `TaskPool.LdcTaskPool.AddTask` | src/common/src/task_pool.c:43-112 | leaves the state of the specification and returns the new task |
| `TaskPool.LdcTaskPool.AddSlicedDeferred` | src/common/src/task_pool.c:1104-1161 | leaves the state of the specification and returns the child |
| `TaskPool.LdcTaskPool.TakePart` | src/common/src/task_pool.c:458-469 | gives a worker the front of the queue, if there is one, and marks it active |
| `TaskPool.LdcTaskPool.EndPart` | src/common/src/task_pool.c:288-313 | leaves the state of the specification, and says whether the completion function is to be called |
| `TaskPool.LdcTaskPool.EndCompletion` | src/common/src/task_pool.c:302-313 | leaves the state of the specification |
| `TransformUnit.InitializeValid` | src/enhancement/src/transform_unit.c:19-62 | the fields of a new state fit together (the surface is whole blocks and the two edges) exactly for units of 2 and 4 pixels |
| `TransformUnitOrder.RasterOfIndex` | src/enhancement/src/transform_unit.c:84-140 | every unit of the surface has an index below the total, and decoding it gives the unit back |
| `TransformUnitOrder.IndexOfRaster` | src/enhancement/src/transform_unit.c:84-140 | every index below the total decodes to a unit of the surface with that index |
| `TransformUnitAligned.BlockRasterBijection` | src/enhancement/src/transform_unit.c:84-140 | ldeTuCoordsBlockRaster takes [0, tuTotal) one to one onto the units of the surface |
| `TransformUnitSurface.EachPixelOnce` | src/enhancement/src/transform_unit.c:19-140 | the units of the indices below the total cover each pixel of the rectangle the state was made for exactly once, and no other pixel |
| `TransformUnitSurface.OtherIndices` | src/enhancement/src/transform_unit.c:84-95 | the index equal to the total is the end of the surface, a larger one an error |
| `TransformUnitAligned.RasterOrder` | src/enhancement/src/transform_unit.c:84-140 | the index follows block rows, then blocks, then rows of units in a block |
| `TransformUnitAligned.BlockStartIs` | src/enhancement/src/transform_unit.c:246-252 | ldeTuIsBlockStart holds exactly at the top left unit of each block |
| `TransformUnitAligned.AlignedIndexOf` | src/enhancement/src/transform_unit.c:142-164 | the aligned index of a position counts every block as whole |
| `TransformUnitAligned.AlignedRasterOfIndex` | src/enhancement/src/transform_unit.c:212-229 | the aligned raster undoes the aligned index |
| `TransformUnitAligned.AlignedIndexOfRaster` | src/enhancement/src/transform_unit.c:212-229 | and the aligned index undoes the aligned raster |
| `TransformUnitAligned.AlignedOrder` | src/enhancement/src/transform_unit.c:142-164 | the aligned index follows the same order |
| `TransformUnitAligned.IndexIsAlignedIff` | src/enhancement/src/transform_unit.c:166-202 | ldeTuIndexBlockAlignedIndex gives the aligned index of the coordinates ldeTuCoordsBlockRaster gives, exactly when the right edge is not counted twice |
| `TransformUnitAligned.AlignedPlaceIff` | src/enhancement/src/transform_unit.c:166-229 | the position of the index it gives is that of the unit exactly when the right edge is not counted twice |
| `TransformUnitAligned.AlignedIncreases` | src/enhancement/src/transform_unit.c:166-202 | right or wrong, it increases strictly: what is counted twice never shrinks along the bottom row |
| `TransformUnitAligned.DoubleCountedExample` | src/enhancement/src/transform_unit.c:177-198 | a surface of 8x8 pixels on which it gives 14 for 8, which is the position (24, 4) outside the surface |
| `TransformUnitLimit.LimitIff` | src/enhancement/src/transform_unit.c:199 | the bound asserted on the aligned index holds for every unit of a surface exactly when the edges leave room for what the last unit counts twice, and always for a unit whose right edge is not counted twice |
| `TransformUnitLimit.LimitExample` | src/enhancement/src/transform_unit.c:166-202 | on a surface of 4x28 pixels in units of four, the last unit gets 90 where at most 64 is asserted |
| `CmdBufferFormat.DecodeEncoded` | src/enhancement/src/cmdbuffer_cpu.c:207-224 | decoding a command and its jump undoes encoding, but for what the jump has beyond 24 bits, whatever is around it |
| `CmdBufferFormat.Forms` | src/enhancement/src/cmdbuffer_cpu.c:207-224 | the bytes of the three forms of a command, for every kind and jump |
| `CmdBufferFormat.StoredTwice` | src/enhancement/src/cmdbuffer_cpu.c:234-251 | the order in which 16 values are stored loses nothing |
| `CmdBufferFormat.StoredInRows` | src/enhancement/src/cmdbuffer_cpu.c:228-251 | the order takes the value of each pixel from its place in one of four 2x2 squares to its place in four rows of pixels |
| `CmdBufferFormat.ReadLayerOf` | src/enhancement/src/cmdbuffer_cpu.c:229-254 | 16-bit values read from their bytes are the values stored |
| `CmdBufferFormat.ResidualAt` | src/enhancement/src/cmdbuffer_cpu.c:226-254 | each residual lies where counting residuals down from the end leads |
| `CmdBufferFormat.ApplyIs` | src/pixel_processing/src/apply_cmdbuffer_applicator.h:203-231 | from the decoder's state before command k, the next commands are read back with their kinds and values, at the places the jumps add up to, each cut to 24 bits |
| `CmdBuffer.LdeCmdBufferCpu.constructor` | src/enhancement/src/cmdbuffer_cpu.c:139-159 | a buffer of the initial capacity |
| `CmdBuffer.LdeCmdBufferCpu.Reset` | src/enhancement/src/cmdbuffer_cpu.c:175-198 | an empty buffer of the new transform size, with all entry points zero |
| `CmdBuffer.LdeCmdBufferCpu.Grow` | src/enhancement/src/cmdbuffer_cpu.c:46-87 | commands stay at the start, residuals at the end, and the gap grows by the added capacity |
| `CmdBuffer.LdeCmdBufferCpu.PutCommand` | src/enhancement/src/cmdbuffer_cpu.c:207-224 | appends the encoding of the command and touches nothing else |
| `CmdBuffer.LdeCmdBufferCpu.PutResidual` | src/enhancement/src/cmdbuffer_cpu.c:226-254 | puts the stored values below the residuals and touches nothing else |
| `CmdBuffer.LdeCmdBufferCpu.Append` | src/enhancement/src/cmdbuffer_cpu.c:200-262 | after any appends, across any growths, the two ends hold exactly what was appended and have not met; the capacity doubles exactly when another command might not fit |
| `CmdBuffer.LdeCmdBufferCpu.ReadsBack` | src/pixel_processing/src/apply_cmdbuffer_applicator.h:203-231 | applying the whole buffer gives back everything appended, in order |
| `CmdBuffer.LdeCmdBufferCpu.Split` | src/enhancement/src/cmdbuffer_cpu.c:264-321 | the entry points start at the first block boundary after each split point, hold the decoder's state there, and are as they were if unused |
| `CmdBufferSplit.CountsSum` | src/enhancement/src/cmdbuffer_cpu.c:264-321 | the counts of the entry points in use add up to the count of the buffer |
| `CmdBufferSplit.EntryApplies` | src/enhancement/src/cmdbuffer_cpu.c:301-306 | applying an entry point applies its own commands, exactly as appended |
| `CmdBufferSplit.BlocksApart` | src/enhancement/src/cmdbuffer_cpu.c:299-309 | no block index occurs in two entry points |
| `CmdBufferSplit.OwnerOf` | src/enhancement/src/cmdbuffer_cpu.c:299-309 | some entry point holds every command of a block |
| `CmdBufferSplit.AnyInterleaving` | src/enhancement/src/cmdbuffer_cpu.c:264-321 | however workers interleave their entry points, every block sees its commands in the order in which they were appended |
| `CmdBufferBlocks.BlockFillsSquare` | src/enhancement/src/cmdbuffer_cpu.c:269 | for both sizes of transform unit the splitter's block is as many units as fill a square of 32x32 pixels |
| `CmdBufferBlocks.SameSquareIff` | src/enhancement/src/cmdbuffer_cpu.c:301 | two indices are in one block of the splitter exactly when their positions on the surface are in one square of 32x32 pixels |
| `CmdBufferBlocks.SquaresApart` | src/enhancement/src/cmdbuffer_cpu.c:299-309 | commands of different entry points are applied in different squares of 32x32 pixels |
| `CmdBufferBlocks.StartsNextSquare` | src/enhancement/src/cmdbuffer_cpu.c:264-321 | an entry point starts at the first command behind the entries before it, and behind their equal shares of all commands, that goes on to another square; if there is none, it is not used |
| `DecodeLoop.ExpandAt` | src/enhancement/src/decode.c:43-56 | in the run-length expansion, an item is its coefficient and then its zeros |
| `DecodeLoop.NoDataIsZero` | src/enhancement/src/decode.c:43-56 | a layer without data, or without a decoder, is zero at every transform unit |
| `DecodeLoop.DataIsItems` | src/enhancement/src/decode.c:43-56 | any other layer has the values of its chunk's items, each followed by its zeros |
| `DecodeLoop.DecodeLayer` | src/enhancement/src/decode.c:43-61 | one layer at one transform unit gives the coefficient of its expansion |
| `DecodeLoop.DecodeAllLayers` | src/enhancement/src/decode.c:37-69 | all layers give the coefficients of their expansions; the mask is zero exactly when they all are; the count is the shortest run |
| `DecodeLoop.DecodeTile` | src/enhancement/src/decode.c:184-374 | visited indices increase strictly from 0 to tuTotal, each with the coefficients of dense decoding; every index skipped has only zeros; and the jumps are those between the emitted places |
| `DecodeLoop.EmitCommand` | src/enhancement/src/decode.c:257-307 | a visit is emitted exactly when it has a coefficient or temporal decoding is off, with the jump from the last place |
| `DecodeLoop.SkipRuns` | src/enhancement/src/decode.c:359-373 | taking the common run off every layer keeps each at its place in its expansion |
| `DecodeCommands.EmittedOrdered` | src/enhancement/src/decode.c:257-307 | the emitted indices increase strictly |
| `DecodeCommands.EmittedIff` | src/enhancement/src/decode.c:257-307 | there is a command for every transform unit with a coefficient in some layer, and for no other one when temporal decoding is enabled |
| `DecodeCommands.NoJumpWraps` | src/enhancement/src/decode.c:291-306 | in both orders, and whether or not the right edge is counted twice, no 32-bit jump wraps |
| `DecodeCommands.JumpsAddUp` | src/enhancement/src/decode.c:291-306 | adding up the jumps as they are read back gives each command its place, less 2^24 for each time one was cut, so exactly its place when none was |
| `DecodeCommands.ResidualsLandWhereDecoded` | src/pixel_processing/src/apply_cmdbuffer_applicator.h:203-231 | applying the bytes of what the loop appended adds the residual of each command at the transform unit it was decoded for exactly when no jump up to it was cut and, in block order, the right edge is not counted twice for that unit |
| `DecodeCommands.JumpsFitIff` | src/enhancement/src/cmdbuffer_cpu.c:216 | whatever the loop visits in a tile, all jumps pass the assertion, exactly when the place of the tile's last unit is below 2^24 |
| `DecodeCommands.CutJumpExample` | src/enhancement/src/cmdbuffer_cpu.c:207-224 | a tile of 16384x16384 pixels is accepted, and the residual decoded for unit 2^24 is added to unit 0 |
| `EntropyRle.ReadRunBytes` | src/enhancement/src/entropy.c:203-207 | reading a run in base 128 undoes writing it |
| `EntropyRle.ItemRoundTrip` | src/enhancement/src/entropy.c:174-213 | reading a coefficient and its run undoes writing them and ends at their last byte |
| `EntropyRle.EntropyDecoder.Decode` | src/enhancement/src/entropy.c:174-213 | the loop reads the value and run that start at the offset, and returns what 32 bits hold of the run |
| `EntropyRle.EntropyDecoder.DecodeAll` | src/enhancement/src/entropy.c:174-213 | any list of coefficients in [-8192, 8191] with zero runs decodes to itself with no byte left over |
| `EntropyRle.EntropyDecoder.GetNextTemporal` | src/enhancement/src/entropy.c:108-124 | the first symbol sets the signal, and each later one flips it if it ends a run |
| `EntropyRle.EntropyDecoder.DecodeTemporal` | src/enhancement/src/entropy.c:215-247 | reads one run and its signal, returns what 32 bits hold of the run, and leaves the other signal for the next |
| `EntropyRle.EntropyDecoder.DecodeAllTemporal` | src/enhancement/src/entropy.c:215-247 | any runs, from either starting signal, decode to what 32 bits hold of them, with alternating signals and no byte left over: to themselves exactly when all are below 2^31 |
| `EntropyRle.LongTemporalExample` | src/enhancement/src/entropy.c:215-247 | a run of 2^31 decodes to -2^31 |
| `Bitstream.TakeTop` | src/enhancement/src/bitstream.c:121-127 | the top of a word is the next bits of the stream, and shifting them out leaves the bits after them |
| `Bitstream.BitStream.constructor` | src/enhancement/src/bitstream.c:71-81 | a stream that is not empty starts at bit 0 |
| `Bitstream.BitStream.LoadWord` | src/enhancement/src/bitstream.c:22-57 | loads a whole word, or a last one of 1 to 3 bytes, or fails at the end |
| `Bitstream.BitStream.ConsumedIsPosition` | src/enhancement/src/bitstream.h:144-169 | the consumed count is the position, and in bytes the least number that holds it |
| `Bitstream.BitStream.ReadBit` | src/enhancement/src/bitstream.c:83-96 | the next bit, or failure exactly when no bit remains |
| `Bitstream.BitStream.ReadBits` | src/enhancement/src/bitstream.c:109-139 | the next n bits, across words and into a short last word, when that many remain; when they do not, it fails exactly when the last word has been loaded or is still to be loaded at a word boundary |
| `Bitstream.BitStream.OverrunExample` | src/enhancement/src/bitstream.c:109-139 | of five bytes, 30 bits are read, and a read of 31 of the ten bits left succeeds |
| `Bitstream.CodeBits` | src/enhancement/src/bitstream.c:147-163 | the first k bits of a code of 2k + 1 bits are zero, the next is one, and with the rest they make v + 1 |
| `Bitstream.EveryNumberHasCode` | src/enhancement/src/bitstream.c:141-167 | every number has such a code |
| `Bitstream.BitStream.ReadExpGolomb` | src/enhancement/src/bitstream.c:141-167 | reads back every v below 2^32 - 1 from its ue(v) code (section 9.1 of ITU-T H.264), and no bit more |
| `ChunkLayout.CalculateTileChunkIndices` | src/enhancement/src/chunk_parser.c:67-94 | the bases stored are where each kind of chunk of each plane starts |
| `ChunkLayout.ChunkCount` | src/enhancement/src/chunk_parser.c:360-379 | the number of chunks allocated is the sum over planes |
| `ChunkLayout.IndicesDistinct` | src/enhancement/src/chunk.c:33-38 | no two chunks, residual or temporal, share an index |
| `ChunkLayout.IndexOrder` | src/enhancement/src/chunk_parser.c:67-94 | indices follow plane, then residual chunks by level, tile and layer, then temporal chunks by tile |
| `ChunkLayout.EveryPlaceUsed` | src/enhancement/src/chunk_parser.c:67-94 | every index below the total is that of a chunk |
| `ChunkLayout.AllocationFits` | src/enhancement/src/chunk_parser.c:268-390 | with the flags parsed from any first byte all indices are below the allocated count; the exact case in which more is allocated than used |

## Left out

- GenerateCodesAndLut: lengths that are not those of a complete code, for which the codes of the source are not prefix-free or leave words without a code; it does not reject them.
- Allocate: 32-bit overflow of buffer sizes, offsets and allocation indices; the parent allocator does not fail. After a seventeenth buffer the state is that of an arena with more records, where the source has written past its array; `recorded` says when.
- Append: the allocator does not fail, and offsets and the transform unit index do not reach 2^31.
- DecodeTile: entropy decoders are their results, so a stream error, which ends the loop early, does not occur; zero runs are below 2^31; there is no temporal chunk.
- ReadExpGolomb: for streams that do not hold the code of a number below 2^32 - 1 only its validity is stated.
- EntropyRle.EntropyDecoder.Decode: the data holds the whole item; the source reads on without a check.
- AddTask: the two function pointers are two flags, so null tasks, which the source asserts away in debug builds but handles, are included; memory for a task is always found.
- ReadBits: a read of 0 bits, which the source's shift by 32 leaves undefined.
- Header parsing and the sort of `huffmanManualInitializeCommon`: the sorted entries are given.
- The `bitsLeft > 10` branch of `huffmanIterateRls`: at most 8 bits are ever left, so it is never taken.
- `rollingArenaReallocate`, whose in-place size test does not describe blocks moved to offset 0.
- Task groups that are blocked, and `ldcTaskDependencyAddMet`, which at full capacity returns an index it has not counted.
- More than one task group: dependencies of all groups have one numbering, and waiting counts of groups are not kept.
- Shutting the pool down, the pool without worker threads, removal of finished tasks, waiting for one task, and `ldcTaskRemoveOutput` on its own.
- `nextTask` links: waiting lists are sequences, and a task taken off its list is new again until it is scheduled.
- A task's `lowestUnmetDependency` is kept as the position of that input.
- `ldeTuCoordsBlockTuCount`, which is not right in the bottom right block, and the surface raster functions, which are one division.
- Temporal and reduced signalling in the decode loop, deblocking, dequantisation, transforms, and the GPU command buffer.
- `entropyDecodeSize`, and the Huffman coded form of temporal data beyond its symbol decoder.
- The unchecked bit readers, which are the checked ones without their tests.
- Chunk contents, and the plane bound of `getTemporalChunk`.
