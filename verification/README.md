# Course work, verified

Six finished pieces of a collection of systems course work, modelled in Dafny and
proved correct for every input, every run or every reachable state.

* **The explicit-free-list allocator** (`uw_cse351/lab5/mm.c` on `memlib.c`, judged by
  `mdriver.c`). One array of words has to satisfy three views at once: the walk from
  header to header, the boundary tags, and the free list threaded through free payloads.
  `Layout` and `FreeList` define the views, `HeapProofs` shows what each write does to
  them, `HeapShapes` says exactly which heap each operation leads to (blocks, free list in
  order, break), `Allocator` holds the operations as a class that mutates the array, and
  `HeapTheorems`, `Contents` and `TraceDriver` say what callers get out of it. The contract towards
  the program is that of section 7.20.3 of ISO C99.
* **MapReduce** (`mit_6.824/src/mapreduce`). `MapReduce` holds doMap, doReduce, merge and
  the sequential job over a mutable set of files; `Scheduler` and `SchedulerTheorems` hold the distributed master as
  a step system with worker failure and retry; `WordCount` holds the two programs and
  `Json` what becomes of strings in the files between the phases.
* **The simulated network with crash and restart** (`labrpc.go`, `persister.go`,
  `config.go`), as a step system in which deleted servers go on running (`Labrpc`,
  `LabrpcTheorems`).
* **Two shell parsers** (`parse.cc` and `sh.c`). `ShellSpec` says what a line denotes,
  `ShellTheorems` what that means, and `ShellParsers` holds both recursive descents over a
  mutable cursor.
* **The T9 trie** (`trie.c`, `t9.c`), as linked nodes on the heap (`Trie`, `T9`).
* **Two loops**: `stab_binsearch` (`Kdebug`) and printnum/strtol (`Numbers`).

The array of the allocator is indexed by words of 8 bytes, word 0 holding the list head;
sizes in headers are in words times 8 plus tags, as in the source. A ghost map from header
address to block and a ghost sequence for the free list are tied to the array by the
invariant `Heap.Valid`.

What the proofs show to be false of the code, each with the exact condition:

* "No two adjacent free blocks" survives `mm_realloc` exactly when the call does not cut a
  rest off in front of a free block (`Allocator.Heap.Realloc`,
  `HeapProofs.TrimmedCoalesced`, on a real heap in `Allocator.ShrinkLeavesNeighbours`).
* The content check of `mdriver-realloc.c` reports an error on correct data exactly when
  char is signed and the low byte of the index is at least 128
  (`TraceDriver.Driver.DoResize`).
* Each task goroutine of a distributed MapReduce job indexes the files by its task number
  (`schedule.go:38`). With more reduce tasks than files a job can finish some reduce tasks,
  never completes, and can panic at any time in its reduce phase (`SchedulerTheorems.NoPanic`,
  `NeverMerged`, `PanicNext`, `RunEnds`); `wc.go` and `ii.go` use 3 reduce tasks, and
  `SchedulerTheorems.OneFilePanics` is the run with one file.
* A MapReduce job partitions by the raw key but stores keys as JSON, which replaces what is
  not valid UTF-8. Its output is the intended one exactly when keys and reduced values
  survive (`MapReduce.OutputExactly`); for the two programs that means that the words that
  occur, and for the index the file names, are valid UTF-8 (`WordCount.WordCountExactly`,
  `InvertedIndexExactly`, an input in `CountLost`).
* `crash1` keeps the Raft state but keeps the content of the Persister exactly when no
  snapshot had been saved in it (`LabrpcTheorems.CrashKeepsExactly`), although its comment
  says that the old content is copied; an acknowledged snapshot lasts until a crash1 of its
  server has ended (`LabrpcTheorems.AcknowledgedSnapshot`, a run in `SnapshotLost`).
* `stab_binsearch` brackets the address on every window of an ordered table exactly when
  the address and its successor do not both occur (`Kdebug.RightExactly`, which names the
  one exception). Its comment
  reads `left > right` as "not contained"; that happens exactly when there is no record
  of the type at all (`Kdebug.ContainedExactly`, example in
  `Kdebug.NotContainedYetBracketed`).
* A formatted number is read back by `strtol` exactly when its pads do not come between
  the reader and the digits (`Numbers.ReadsBackExactly`); `%p` in a wide field of spaces
  is read as 0 (`Numbers.WidePointerIsLost`).

## Model

| member | source | states |
|---|---|---|
| `Tags.Header` | uw_cse351/lab5/mm.c:94-122 | a header word holds size, used and preceding-used independently, so setting or clearing one tag keeps the rest (see SetUsed and the others) |
| `Tags.TagBits` | uw_cse351/lab5/mm.c:94-122 | the two tags are bit 0 and bit 1 of the word |
| `Tags.SetUsed` | uw_cse351/lab5/mm.c:371-380 | sets the used tag and keeps size and preceding-used tag |
| `Tags.ClearUsed` | uw_cse351/lab5/mm.c:407-407 | clears the used tag and keeps size and preceding-used tag |
| `Tags.SetPrec` | uw_cse351/lab5/mm.c:379-379 | sets the preceding-used tag and keeps size and used tag |
| `Tags.ClearPrec` | uw_cse351/lab5/mm.c:406-406 | clears the preceding-used tag and keeps size and used tag |
| `Layout.Predecessor` | uw_cse351/lab5/mm.c:187-202 | in a tiled heap every block but the first, and the final word, has a block that ends where it starts |
| `Layout.FuseTagged` | uw_cse351/lab5/mm.c:223-237 | replacing a run of blocks by one block with the right header, footer and following tag keeps tiling and all tags |
| `Layout.CutTagged` | uw_cse351/lab5/mm.c:370-376 | cutting a block into a used part and a free rest keeps tiling and all tags |
| `Layout.ExtendTagged` | uw_cse351/lab5/mm.c:254-271 | a new free block at the old end of the heap keeps tiling and all tags |
| `Layout.LinkFrameKept` | uw_cse351/lab5/mm.c:143-173 | writes that touch only the list head and the links of free blocks change no live payload |
| `Memlib.Memory.constructor` | uw_cse351/lab5/memlib.c:25-37 | the heap starts empty |
| `Memlib.Memory.ResetBrk` | uw_cse351/lab5/memlib.c:48-51 | the break goes back to the start, the storage keeps its size |
| `Memlib.Memory.Sbrk` | uw_cse351/lab5/memlib.c:58-69 | extends the break exactly when the storage has room, otherwise fails and changes nothing |
| `FreeList.InsertLinked` | uw_cse351/lab5/mm.c:143-152 | the words written by an insertion link exactly the new block followed by the old list, in order, whatever the head's prev word holds |
| `FreeList.InsertFreeBlock` | uw_cse351/lab5/mm.c:143-152 | the block becomes the head of the list, and only links of free blocks and the list head are written |
| `FreeList.RemoveLinked` | uw_cse351/lab5/mm.c:155-173 | unlinking the k-th element, first or last included, leaves the words linking the rest in the same order |
| `FreeList.RemoveFreeBlock` | uw_cse351/lab5/mm.c:155-173 | takes the block out of the list wherever it is, without ever following the head's prev word |
| `FreeList.SearchFreeList` | uw_cse351/lab5/mm.c:128-140 | finds the first element of the list that is large enough, or none when there is none |
| `HeapProofs.RunIsMaximal` | uw_cse351/lab5/mm.c:187-218 | when both loops of coalescing stop, the run of free blocks has used neighbours (or the ends of the heap) on both sides |
| `HeapProofs.MaximalCoalesced` | uw_cse351/lab5/mm.c:176-239 | merging the maximal run leaves no two adjacent free blocks if there were none outside the run |
| `HeapProofs.MergedHeap` | uw_cse351/lab5/mm.c:223-237 | the two words written for a merged run keep the three views together and every live payload intact |
| `HeapProofs.SplitHeap` | uw_cse351/lab5/mm.c:370-376 | the words written by the split of malloc keep the views together and every other payload intact |
| `HeapProofs.TakenHeap` | uw_cse351/lab5/mm.c:377-381 | so do the words written when the whole block is taken |
| `HeapProofs.FreedHeap` | uw_cse351/lab5/mm.c:403-411 | so do the words written by free |
| `HeapProofs.ExtendedHeap` | uw_cse351/lab5/mm.c:254-271 | so do the words written when the heap is extended |
| `HeapProofs.AbsorbedHeap` | uw_cse351/lab5/mm.c:469-476 | growing into the following free block keeps the views together and every live payload, including the block's own |
| `HeapProofs.ShrunkHeap` | uw_cse351/lab5/mm.c:487-501 | the split of realloc keeps the views together and every other payload intact |
| `HeapProofs.SearchMeaning` | uw_cse351/lab5/mm.c:128-140 | the search yields a block exactly when some free block of the heap is large enough, and then the first fit |
| `HeapProofs.InitialHeap` | uw_cse351/lab5/mm.c:281-321 | the words written by mm_init form a heap with one free block of 32 bytes |
| `HeapProofs.MoveChain` | uw_cse351/lab5/mm.c:515-521 | allocate, copy, free together keep the old payload's words and all other payloads |
| `HeapProofs.TrimmedCoalesced` | uw_cse351/lab5/mm.c:487-501 | the uncoalesced split creates adjacent free blocks if and only if it leaves a rest and a free block follows |
| `HeapProofs.GrownCoalesced` | uw_cse351/lab5/mm.c:469-476 | growing into the following free block creates no adjacent free blocks |
| `HeapTheorems.ThreeViews` | uw_cse351/lab5/mm.c:533-561 | the walk by header sizes meets exactly the blocks of the tiling in address order; the free list holds exactly the blocks of the walk whose used tag is clear, each once |
| `HeapTheorems.BlocksFillHeap` | uw_cse351/lab5/mm.c:533-561 | conservation: block sizes add up to the heap without its first and last word |
| `HeapTheorems.LivePayloads` | uw_cse351/lab5/mdriver.c:363-389 | live payloads are 8-aligned, inside the heap, large enough for the request and pairwise disjoint |
| `HeapTheorems.LiveBytesBound` | uw_cse351/lab5/mdriver.c:677-677 | the bytes in use never exceed the heap |
| `Allocator.ReqWords` | uw_cse351/lab5/mm.c:343-354 | the block size covers header and request, is at least the minimum, and otherwise wastes less than one word |
| `Allocator.PageWords` | uw_cse351/lab5/mm.c:242-246 | covers the request, and one page less would not |
| `Allocator.PageWordsIs` | uw_cse351/lab5/mm.c:242-246 | is the number computed from the page count, a whole number of pages |
| `Allocator.Heap.GatherPreceding` | uw_cse351/lab5/mm.c:187-202 | one step back over a free block takes it off the list and lengthens the gathered run |
| `Allocator.Heap.GatherFollowing` | uw_cse351/lab5/mm.c:208-218 | one step forward over a free block does the same at the other end |
| `Allocator.Heap.CoalesceFreeBlock` | uw_cse351/lab5/mm.c:176-239 | terminates with the whole maximal run of free blocks around the block replaced by one free block at the front of the list, the rest of the list in its old order, live blocks and payloads untouched |
| `Allocator.Heap.RequestMoreSpace` | uw_cse351/lab5/mm.c:242-277 | succeeds exactly when the pages fit into the storage; the heap is then the old one with a free block of the requested pages at its end, merged with a free block before it and listed in front of the others; adds no adjacent free blocks |
| `Allocator.Heap.Init` | uw_cse351/lab5/mm.c:281-321 | succeeds exactly when six words fit; then the heap is one free block of four words, listed, and nothing else |
| `Allocator.Heap.Place` | uw_cse351/lab5/mm.c:366-381 | the free block becomes used, split exactly when the rest is at least the minimum; all live payloads stay |
| `Allocator.Heap.FindFit` | uw_cse351/lab5/mm.c:359-364 | first fit, or more space and a second search that never comes back empty |
| `Allocator.Heap.Malloc` | uw_cse351/lab5/mm.c:328-388 | NULL for size 0; succeeds exactly when a free block fits or the storage has room; the new heap is determined: the first fit of the list, of the old heap or of the heap extended by exactly the pages needed, becomes used, and what is left of it, if at least four words, is listed in front; adds one live block for the request, keeps all others and their payloads, and keeps the heap coalesced |
| `Allocator.Heap.FreePtr` | uw_cse351/lab5/mm.c:391-421 | the new heap is determined: the block and the maximal free run around it become one free block at the front of the list; removes exactly the block from the live ones, keeps all other payloads and keeps the heap coalesced |
| `Allocator.Heap.Grow` | uw_cse351/lab5/mm.c:460-483 | the block takes over the following free block; its payload and all others stay |
| `Allocator.Heap.Shrink` | uw_cse351/lab5/mm.c:487-501 | the block is cut to the requested size, the rest is listed, payloads stay |
| `Allocator.Heap.Move` | uw_cse351/lab5/mm.c:509-527 | the third path of realloc: fails only with malloc, otherwise moves the payload |
| `Allocator.Heap.Realloc` | uw_cse351/lab5/mm.c:423-530 | on all paths and in every heap state: the result is the old pointer if and only if the block is large enough or can take over the next free block, and the new heap is determined: then the old one with the next block fused in when it is needed and the rest cut off, otherwise what mm_malloc and then mm_free lead to, and what mm_free leads to for size 0; the result holds the new size and the common prefix of the old payload, all other live blocks and payloads stay; it fails exactly when the block cannot be extended and malloc would fail; a coalesced heap stays coalesced exactly when no rest is cut off in front of a free block |
| `Allocator.ShrinkLeavesNeighbours` | uw_cse351/lab5/mm.c:487-501 | mm_init, mm_malloc(88), mm_realloc(p, 8) on any storage with room for the first page of at least 12 words: the heap ends with two free neighbours |
| `TraceDriver.AddRange` | uw_cse351/lab5/mdriver.c:351-400 | accepts exactly the ranges that are aligned, inside the heap, and have no end inside a recorded range |
| `TraceDriver.RemoveRange` | uw_cse351/lab5/mdriver.c:404-420 | removes the first record at the address, if any, and nothing else |
| `TraceDriver.FreshAcceptable` | uw_cse351/lab5/mdriver.c:363-389 | a new live block always passes add_range, which follows from the allocator and not from the driver's end-point test |
| `Contents.FillWordBytes` | uw_cse351/lab5/mdriver.c:580-585 | filling the low k bytes of a word sets exactly these bytes |
| `Contents.MemSet` | uw_cse351/lab5/mdriver.c:580-585 | exactly the requested bytes of the payload are filled; no other payload and none of the three views changes |
| `Contents.FilledMarked` | uw_cse351/lab5/mdriver.c:580-585 | after memset every requested byte of the payload is the given one |
| `Contents.MovedMarked` | uw_cse351/lab5/mdriver-realloc.c:609-622 | a payload filled with one byte is still so, as far as the common prefix goes, after mm_realloc |
| `Contents.CheckContent` | uw_cse351/lab5/mdriver-realloc.c:614-622 | the comparison loop succeeds exactly when every byte, read as char, equals the index byte |
| `Contents.CheckSucceeds` | uw_cse351/lab5/mdriver-realloc.c:614-622 | on a filled payload that is exactly when char is unsigned or the byte is below 128 |
| `TraceDriver.Driver.DoAlloc` | uw_cse351/lab5/mdriver.c:564-590 | has the effect of mm_malloc on the heap and adds the new live block to those of the identifiers; never reports an error; ends the process exactly when the request cannot be served; records, identifiers, sizes and contents keep describing the live blocks, and every live block has a record |
| `TraceDriver.Driver.DoRelease` | uw_cse351/lab5/mdriver.c:592-598 | has the effect of mm_free of the pointer held on the heap; exactly its block is no longer live and there is no record at its address; records, identifiers, sizes and contents stay in agreement with the heap |
| `TraceDriver.Driver.DoResize` | uw_cse351/lab5/mdriver-realloc.c:593-628 | has the effect of mm_realloc of the pointer held on the heap, and its identifier holds the result; ends the process exactly when the request cannot be served, and reports an error exactly when char is signed and the index byte is at least 128: the content check always finds the old data |
| `TraceDriver.Driver.EvalValid` | uw_cse351/lab5/mdriver.c:540-608 | for every well-formed trace, with the number of requests served: it stops early exactly when the storage is too small for the heap or for the request it has reached, or when that is a misread resize, and only then reports an error; at the end exactly the identifiers that the trace leaves hold a block are held, and if it allocates none of them while held, the live blocks are exactly theirs; every held payload is filled with its index byte; without resize requests the heap stays coalesced |
| `TraceDriver.HeldAllStep` | uw_cse351/lab5/mdriver.c:553-598 | a request that allocates no held identifier again leaves no live block that nobody holds, if there was none before |
| `TraceDriver.NoRecord` | uw_cse351/lab5/mdriver.c:592-598 | a block that is not live has no record in the range list |
| `TraceDriver.Driver.CountOp` | uw_cse351/lab5/mdriver.c:635-675 | each request updates total and high water mark as the trace alone determines them, and has its effect on the heap |
| `TraceDriver.Driver.EvalUtil` | uw_cse351/lab5/mdriver.c:621-678 | the high water mark is the peak of requested bytes over the trace and the utilisation lies between 0 and 1; exactly the identifiers that the trace leaves hold a block, and if none is allocated while held, the live blocks are exactly theirs; it stops early exactly at a request that cannot be served |
| `TraceDriver.PeakIsLargest` | uw_cse351/lab5/mdriver.c:616-678 | the peak that is reported is the largest of the totals of requested bytes after each number of requests |
| `SortedKeys.LessIs` | mit_6.824/src/mapreduce/common_reduce.go:65-69 | one string is before another exactly when it is a proper prefix of it or has the smaller byte at the first place where they differ |
| `SortedKeys.LessTotal` | mit_6.824/src/mapreduce/common_reduce.go:69-69 | string order is total |
| `SortedKeys.LessTransitive` | mit_6.824/src/mapreduce/common_reduce.go:69-69 | string order is transitive |
| `SortedKeys.SortedUnique` | mit_6.824/src/mapreduce/common_reduce.go:65-69 | a set of keys has only one strictly sorted listing, so the map's iteration order does not matter |
| `SortedKeys.SortedKeysOf` | mit_6.824/src/mapreduce/common_reduce.go:65-69 | the keys of a map, each once, sorted |
| `Json.SurvivesExactly` | mit_6.824/src/mapreduce/common_map.go:66-75 | a string comes back from a JSON file unchanged if and only if it is valid UTF-8 |
| `Json.ValidIsUtf8` | mit_6.824/src/mapreduce/common_map.go:70-89 | the strings called valid are exactly the UTF-8 encodings of sequences of scalar values, by the table of section 3 of RFC 3629 |
| `Json.CoerceTwice` | mit_6.824/src/mapreduce/common_reduce.go:77-79 | what came back once comes back unchanged |
| `Json.ValidConcat` | mit_6.824/src/main/ii.go:61-67 | joining valid strings gives a valid string |
| `Json.TwoSlots` | mit_6.824/src/mapreduce/common_map.go:87-91 | the hash puts two one-byte keys into different partitions of three |
| `MapReduce.PartKeys` | mit_6.824/src/mapreduce/common_map.go:70-76 | a partition has exactly the keys of its own slot |
| `MapReduce.PartValues` | mit_6.824/src/mapreduce/common_map.go:70-76 | and all their values in emission order |
| `MapReduce.ValuesInOrder` | mit_6.824/src/mapreduce/common_reduce.go:46-63 | the i-th value of a key is that of the pair with this key before which i others have it |
| `MapReduce.MapFileLines` | mit_6.824/src/mapreduce/common_map.go:60-89 | a map task writes a pair for a reduce task exactly if it emitted one whose key hashes to the task modulo nReduce, encoded |
| `MapReduce.PairsInOrder` | mit_6.824/src/mapreduce/common_reduce.go:46-63 | the pairs of a job are those of its files one after the other, each in emission order |
| `MapReduce.LastWins` | mit_6.824/src/mapreduce/master_splitmerge.go:22-37 | of several lines for a key the merged map keeps the last |
| `MapReduce.GatherIsRead` | mit_6.824/src/mapreduce/common_reduce.go:44-63 | what reduce task r reads is the partition r of everything emitted, in file order then emission order, encoded |
| `MapReduce.ReducedLines` | mit_6.824/src/mapreduce/common_reduce.go:78-80 | a reduce output has exactly one kind of line per key: the key with reduceF of all its values |
| `MapReduce.MergeOfSlices` | mit_6.824/src/mapreduce/master_splitmerge.go:16-49 | merging results that are the slots of some pairs gives what reducing all pairs at once would give, whatever the slots |
| `MapReduce.MergeIsActual` | mit_6.824/src/mapreduce/master_splitmerge.go:16-49 | whoever left the results, merging them gives the same output |
| `MapReduce.OutputExactly` | mit_6.824/src/mapreduce/common_map.go:69-76 | the output is the intended one, a definition that mentions neither hash nor nReduce nor files, if and only if the emitted keys survive the JSON files and the reduced values come out the same |
| `MapReduce.MergeOverwritesExactly` | mit_6.824/src/mapreduce/master_splitmerge.go:32-32 | a key is in two reduce outputs, so that merge overwrites a line, if and only if two emitted keys of different slots look alike in JSON |
| `MapReduce.ResFileDistinct` | mit_6.824/src/mapreduce/common_reduce.go:65-80 | no key appears twice in one reduce output |
| `MapReduce.Disk.DoMap` | mit_6.824/src/mapreduce/common_map.go:55-85 | writes the nReduce partitions of its pairs, chosen by the raw key and stored encoded, and no other file |
| `MapReduce.Disk.GroupPairs` | mit_6.824/src/mapreduce/common_reduce.go:41-63 | groups the values of each key in order, or fails exactly when a file is missing |
| `MapReduce.Disk.DoReduce` | mit_6.824/src/mapreduce/common_reduce.go:41-82 | writes one line per key in sorted order with reduceF of its values, and no other file |
| `MapReduce.Disk.CollectResults` | mit_6.824/src/mapreduce/master_splitmerge.go:16-35 | the map filled from all results, later lines winning |
| `MapReduce.Disk.Merge` | mit_6.824/src/mapreduce/master_splitmerge.go:14-52 | writes the map in key order, or fails exactly when a result is missing |
| `MapReduce.Disk.Sequential` | mit_6.824/src/mapreduce/master.go:55-75 | never fails; leaves all intermediate and result files and the output that they determine |
| `Scheduler.NextInv` | mit_6.824/src/mapreduce/schedule.go:33-58 | every step keeps: tasks and busy workers are paired, finished tasks have left the right files, calls and signals are accounted for |
| `SchedulerTheorems.RunInv` | mit_6.824/src/mapreduce/schedule.go:33-58 | hence every state of every run has this invariant |
| `SchedulerTheorems.DistributedIsSequential` | mit_6.824/src/mapreduce/master.go:79-118 | every distributed run that completes, under any interleaving, retries and lost workers, leaves the intermediate, reduce and merged files that Sequential leaves |
| `SchedulerTheorems.NoPanic` | mit_6.824/src/mapreduce/schedule.go:35-38 | with at least as many files as reduce tasks no run panics |
| `SchedulerTheorems.NeverMerged` | mit_6.824/src/mapreduce/schedule.go:35-58 | with fewer no run completes |
| `SchedulerTheorems.PanicNext` | mit_6.824/src/mapreduce/schedule.go:35-38 | and every run in its reduce phase can be continued by the panic |
| `SchedulerTheorems.OneFilePanics` | mit_6.824/src/main/wc.go:73-75 | any job with one file and three reduce tasks has a run that finishes its first reduce task and then panics |
| `SchedulerTheorems.ReduceAfterMap` | mit_6.824/src/mapreduce/master.go:110-111 | no reduce task is dispatched before every map task has succeeded |
| `SchedulerTheorems.CallBound` | mit_6.824/src/mapreduce/schedule.go:42-51 | each call finishes a task or loses a worker, so there are at most tasks plus workers calls |
| `SchedulerTheorems.NoDeadlock` | mit_6.824/src/mapreduce/schedule.go:42-58 | an unfinished phase cannot take a step if and only if it has lost all workers, every goroutine waits for one or is done, and there is nothing to receive |
| `SchedulerTheorems.RankDecreases` | mit_6.824/src/mapreduce/schedule.go:42-58 | every step but a registration brings the run closer to its end |
| `SchedulerTheorems.RunBound` | mit_6.824/src/mapreduce/schedule.go:33-58 | a run makes at most four steps per task, two per worker and two more, apart from registrations |
| `SchedulerTheorems.RunEnds` | mit_6.824/src/mapreduce/schedule.go:33-58 | a run that cannot be continued is complete and had enough files, or has panicked and had not, or has lost all its workers |
| `WordCount.AtoiItoa` | mit_6.824/src/main/wc.go:50-61 | a printed count reads back as itself |
| `WordCount.ItoaPlaces` | mit_6.824/src/main/wc.go:50-61 | a printed count has its decimal digits in their places and no leading zero |
| `WordCount.AtoiSigned` | mit_6.824/src/main/wc.go:50-61 | a number may be preceded by a sign, which counts |
| `WordCount.DigitsOnly` | mit_6.824/src/main/wc.go:50-61 | anything but digits behind the sign is an error |
| `WordCount.LettersAre` | mit_6.824/src/main/wc.go:15-47 | the letters below 256 are those of category L |
| `WordCount.CountIsOccurrences` | mit_6.824/src/main/wc.go:15-47 | the words the scanner finds are exactly the maximal runs of letters, each occurrence once |
| `WordCount.WordsInOrder` | mit_6.824/src/main/wc.go:15-47 | the k-th word found is the run of letters before which k others start |
| `WordCount.WcMapF` | mit_6.824/src/main/wc.go:15-47 | one pair with value 1 per word, in order |
| `WordCount.WcReduceF` | mit_6.824/src/main/wc.go:50-61 | the printed sum of the values, or a panic exactly when one is not a number |
| `WordCount.SumIsTotal` | mit_6.824/src/main/wc.go:50-61 | the number printed is the sum of what the values denote |
| `WordCount.WordCountOutput` | mit_6.824/src/main/wc.go:15-61 | the intended output has a line for exactly the words that occur, with the number of their occurrences over all files |
| `WordCount.WordCountExactly` | mit_6.824/src/main/wc.go:67-81 | the program has this output, for any hash and any number of reduce tasks, if and only if every word that occurs is valid UTF-8 |
| `WordCount.WordCountLines` | mit_6.824/src/main/wc.go:67-81 | the same, line by line |
| `WordCount.CountLost` | mit_6.824/src/main/wc.go:67-81 | a text of two words that are not UTF-8: with three reduce tasks and the hash in use the only line has neither word and the count 1 |
| `WordCount.IiMapF` | mit_6.824/src/main/ii.go:14-57 | one pair per distinct word of the document, in order of first occurrence |
| `WordCount.FirstsInOrder` | mit_6.824/src/main/ii.go:14-57 | the k-th pair is for the word that occurs first after k different ones |
| `WordCount.JoinConcat` | mit_6.824/src/main/ii.go:62-67 | joined names have one separator between any two neighbours |
| `WordCount.InvertedIndexOutput` | mit_6.824/src/main/ii.go:14-67 | the intended output has a line for exactly the words that occur, with the number of files that contain it and their names in order |
| `WordCount.InvertedIndexExactly` | mit_6.824/src/main/ii.go:73-87 | the program has this output if and only if every word that occurs, and the name of every file with a word, is valid UTF-8 |
| `WordCount.InvertedIndexLines` | mit_6.824/src/main/ii.go:73-87 | the same, line by line |
| `Labrpc.FinalCheckOk` | mit_6.824/src/labrpc/labrpc.go:227-248 | if the final check finds the instance on the net, its Persister is still the current one, so the handler's saves are in it |
| `Labrpc.NextInv` | mit_6.824/src/labrpc/labrpc.go:186-316 | every step of network, handlers, crash and restart keeps the invariant and never makes the saved Raft state of a server older |
| `Labrpc.RunInv` | mit_6.824/src/labrpc/labrpc.go:186-316 | hence it holds in every state of every run |
| `Labrpc.AcknowledgedIsDurable` | mit_6.824/src/raft/config.go:75-139 | once a Call has returned true, in every later state, through any crashes and restarts, the server's current Persister holds a state saved at or after the handler's last save |
| `LabrpcTheorems.ExactlyOnce` | mit_6.824/src/labrpc/labrpc.go:81-106 | in every state of every run a call has at most one reply, which never changes; true means that the handler was executed exactly once; while there is no reply the call can get on |
| `LabrpcTheorems.DirectedByEnd` | mit_6.824/src/labrpc/labrpc.go:160-190 | in every run, a call that has a target got it in a state in which its end was enabled, was connected to the server of the target, and that very instance was on the net |
| `LabrpcTheorems.ConfirmedAtEnd` | mit_6.824/src/labrpc/labrpc.go:227-265 | in every run, a call that is answered with true had, when its handler had returned and the reply was decided, its end enabled and its instance on the net |
| `LabrpcTheorems.UnansweredGetsOn` | mit_6.824/src/labrpc/labrpc.go:186-265 | a call without a reply always has an enabled step of its own, without counting dropped messages |
| `LabrpcTheorems.OwnStepsBound` | mit_6.824/src/labrpc/labrpc.go:186-265 | a call makes at most five steps of its own, so the last of them answers it |
| `LabrpcTheorems.DecidesExactly` | mit_6.824/src/labrpc/labrpc.go:186-265 | ProcessReq can decide a reply if and only if the end is disabled, not connected or connected to a server that is not on the net, or the handler has not started or has returned, or the end is disabled or the instance no longer on the net |
| `LabrpcTheorems.AcknowledgedSnapshot` | mit_6.824/src/raft/config.go:75-103 | an acknowledged snapshot stays or is replaced by a newer one exactly as long as no crash1 of its server has ended; afterwards there is none, or one saved after the crash |
| `LabrpcTheorems.CrashKeepsExactly` | mit_6.824/src/raft/config.go:75-103 | over every run of a whole crash1, with anything interleaved: nothing is lost up to the copy, the Raft state of the copy is kept, and the copy is kept if and only if no snapshot had been saved |
| `LabrpcTheorems.CopyUntouched` | mit_6.824/src/raft/config.go:82-102 | between the copy and the end of crash1 nobody writes to the copy |
| `LabrpcTheorems.SnapshotLost` | mit_6.824/src/raft/config.go:75-103 | a run (start1, a call whose handler saves a snapshot and which returns true, crash1) that loses an acknowledged snapshot |
| `ShellSpec.LineSucceeds` | mit6.828/homework/shell/parse.cc:76-169 | a token list parses exactly when each redirection sign is followed by a word; missing file is the only error; a successful parse consumes everything |
| `ShellSpec.ClassesAre` | mit6.828/homework/shell/parse.cc:11-12 | the white-space and symbol characters of both shells |
| `ShellTheorems.LineLimit` | mit6.828/homework/shell/sh.c:390-419 | with the limit of sh.c a line parses exactly when it does without and no simple command has more than nine words, to the same tree |
| `ShellTheorems.LineErrors` | mit6.828/homework/shell/sh.c:366-419 | sh.c fails only for a missing file or too many words |
| `ShellTheorems.LineOrder` | mit6.828/homework/shell/parse.cc:103-151 | the simple commands of the tree are the pieces of the line between separators, with their words and redirections in order, and the separators are those of the line |
| `ShellTheorems.TokenizePrint` | mit6.828/homework/shell/parse.cc:14-50 | printing tokens with blanks between them and tokenizing gives them back |
| `ShellTheorems.PrintParse` | mit6.828/homework/shell/parse.cc:155-169 | printing any tree and parsing the text gives back the tree; with sh.c too if no command has more than nine words |
| `ShellParsers.Lexer.GetToken` | mit6.828/homework/shell/parse.cc:14-50 | returns the next token, advances past exactly that token, and moves the cursor strictly unless at the end |
| `ShellParsers.Lexer.Peek` | mit6.828/homework/shell/parse.cc:53-60 | tells whether the next token is one of the symbols without consuming it |
| `ShellParsers.ParseRedirs` | mit6.828/homework/shell/parse.cc:76-100 | takes all redirections at the cursor in order, or fails exactly on a missing file |
| `ShellParsers.CcExec` | mit6.828/homework/shell/parse.cc:103-127 | builds the simple command that the tokens denote and stops at its end |
| `ShellParsers.CcPipe` | mit6.828/homework/shell/parse.cc:129-138 | builds the pipeline that the tokens denote |
| `ShellParsers.CcList` | mit6.828/homework/shell/parse.cc:141-151 | builds the list of pipelines that the tokens denote |
| `ShellParsers.ParseCommand` | mit6.828/homework/shell/parse.cc:155-169 | succeeds exactly when each redirection sign is followed by a word; syntax error and incomplete parse are unreachable; the tree keeps the order of everything |
| `ShellParsers.ShExec` | mit6.828/homework/shell/sh.c:390-419 | the same with an array of ten words filled by index, never out of bounds |
| `ShellParsers.ShPipe` | mit6.828/homework/shell/sh.c:352-363 | builds the pipeline that the tokens denote under the limit |
| `ShellParsers.ShList` | mit6.828/homework/shell/sh.c:340-350 | builds the list that the tokens denote under the limit |
| `ShellParsers.ParseCmd` | mit6.828/homework/shell/sh.c:314-328 | accepts a line exactly when parse_command does and no simple command has more than nine words, and builds the same tree |
| `Trie.Node.constructor` | uw_cse374/hw4/trie.c:9-28 | a node without children, with a word only if it ends one |
| `Trie.AppendIndexes` | uw_cse374/hw4/trie.c:62-76 | giving the next place of a code's chain the new word keeps trie and linear scan in agreement for every code and every k |
| `Trie.GrowIndexes` | uw_cse374/hw4/trie.c:55-58 | a new node without a word changes no answer |
| `Trie.Trie.Search` | uw_cse374/hw4/trie.c:120-131 | following a string from the node at a path leads to the node at the concatenation, or to NULL if there is none |
| `Trie.Trie.LastOfChain` | uw_cse374/hw4/trie.c:71-74 | the walk along '#' ends, at the place of the last word with this code |
| `Trie.Trie.InsertWord` | uw_cse374/hw4/trie.c:35-77 | adds the entry to the dictionary that the trie indexes; refuses exactly the codes that are not digits, and then the dictionary is unchanged |
| `T9.ConvertIsKeypad` | uw_cse374/hw4/t9.c:9-28 | a letter is converted to the key it is printed on, and to no other |
| `T9.CodeIsKeypad` | uw_cse374/hw4/t9.c:49-56 | the code of a word is the only one that presses, letter by letter, the keys they are printed on |
| `T9.Translate` | uw_cse374/hw4/t9.c:49-56 | a word is converted letter by letter |
| `T9.ReadData` | uw_cse374/hw4/t9.c:31-68 | all lines are added, in order, with their codes |
| `T9.LookupIsScan` | uw_cse374/hw4/t9.c:93-124 | the answer to a code and k signs '#' is the k-th inserted word with that code, or none |
| `T9.LookupOther` | uw_cse374/hw4/t9.c:93-124 | keys that are not a code followed by signs '#' find nothing |
| `T9.MatchesInOrder` | uw_cse374/hw4/trie.c:62-76 | the k-th word of a code is that of the entry with this code before which k others have it |
| `T9.IndexAnswers` | uw_cse374/hw4/trie.c:120-131 | searching any key string in the trie gives the answer of a linear scan; a node reached by '#' always has a word |
| `T9.Session` | uw_cse374/hw4/t9.c:83-125 | every line before the first exit is answered, and no other: if m is the last line up to line n that does not start with '#', the answer to line n is what a linear scan finds for the keys of line m and n - m signs '#'; if there is no such line it is that there are no more words |
| `Kdebug.StepBack` | mit6.828/lab/kern/kdebug.c:59-61 | the last record of the type at or before a place |
| `Kdebug.StabBinsearch` | mit6.828/lab/kern/kdebug.c:50-94 | terminates on all inputs; on an ordered table, if not both address and successor occur, left is the last record at or before the address and right is just before the next, whatever other types are interleaved; the cases without such a record are stated too |
| `Kdebug.RightWhenSafe` | mit6.828/lab/kern/kdebug.c:56-93 | the same about the search as a function |
| `Kdebug.UnsafeMeansWrong` | mit6.828/lab/kern/kdebug.c:75-81 | if address and successor both occur, the search is wrong on some window, unless the address is 0xfffffffe and the two records are adjacent |
| `Kdebug.RightExactly` | mit6.828/lab/kern/kdebug.c:50-94 | the search is right on every window of an ordered table if address and successor do not both occur, and only then, apart from that one case |
| `Kdebug.LuckyExample` | mit6.828/lab/kern/kdebug.c:75-81 | the one case: a table with both where the wrap-around of the raised address makes the search right on every window |
| `Kdebug.ContainedExactly` | mit6.828/lab/kern/kdebug.c:30-34 | left > right exactly when there is no record of the type; the address is contained exactly when left is a record of the type |
| `Kdebug.NotContainedYetBracketed` | mit6.828/lab/kern/kdebug.c:30-34 | a concrete table with an address that is not contained and left <= right |
| `Numbers.Wrap` | mit6.828/lab/lib/string.c:277-278 | a 32-bit long holds a number exactly when it is in range |
| `Numbers.Printed` | mit6.828/lab/lib/printfmt.c:35-50 | a printed number has max(width, digits) characters |
| `Numbers.Sink.Printnum` | mit6.828/lab/lib/printfmt.c:35-50 | for every base from 2 to 16 the recursion emits the padding first and then the digits, most significant first |
| `Numbers.QuotientIs` | mit6.828/lab/lib/printfmt.c:40-49 | num / base and num % base are the quotient and remainder of the digits |
| `Numbers.Sink.Convert` | mit6.828/lab/lib/printfmt.c:190-229 | prefix, padding and digits of the four conversions |
| `Numbers.ConversionText` | mit6.828/lab/lib/printfmt.c:190-229 | %d and %u print decimal digits, %x and %p hexadecimal ones; a negative %d has a minus sign and %p "0x" in front, before the padding |
| `Numbers.NumeralValue` | mit6.828/lab/lib/printfmt.c:35-50 | the digits of a number denote the number |
| `Numbers.NumeralUnique` | mit6.828/lab/lib/printfmt.c:35-50 | and are the only digits without leading zeros that do |
| `Numbers.Strtol` | mit6.828/lab/lib/string.c:239-284 | reads blanks, sign, base prefix and the longest run of digits; the value is what the digits denote, modulo 2^32, and the end pointer is right behind them |
| `Numbers.ReadsGrammar` | mit6.828/lab/lib/string.c:239-284 | for blanks, a sign, a prefix that belongs to the base (0x for 0 and 16, 0 for 0, none) and digits, followed by anything else, the value is that of the digits with the sign, modulo 2^32, and the end is behind the digits |
| `Numbers.DigitTable` | mit6.828/lab/lib/string.c:262-275 | the value of every digit, in lower and upper case |
| `Numbers.PlainReadsBack` | mit6.828/lab/lib/string.c:239-284 | a number in any base from 2 to 16, in any width padded with spaces or zeros, followed by anything that is not a digit or letter, is read back completely |
| `Numbers.HexReads` | mit6.828/lab/lib/printfmt.c:215-221 | the %p form is read back in base 16 and in base 0, unless pads other than zeros follow "0x" |
| `Numbers.MinusReads` | mit6.828/lab/lib/printfmt.c:191-198 | the same for a negative %d and its sign |
| `Numbers.ReadsBackExactly` | mit6.828/lab/lib/printfmt.c:190-229 | for every conversion, number, width and pad character: the whole text is read back as the number if and only if the pads do not stand in the way |
| `Numbers.WidePointerIsLost` | mit6.828/lab/lib/printfmt.c:215-221 | a concrete pointer that is read back as 0 |

## Left out

- The allocator's memory is an array of 8-byte words, and payloads are kept word by word; bytes appear in requested sizes, in the driver's ranges, and in what the driver writes and compares, where the lowest byte of a word comes first.
- size_t overflow on huge requests, NULL or dangling pointers passed to free and realloc: excluded by preconditions, since the code reads the header before any test.
- Allocator.Heap.Shrink: the preceding-used bit after the rest is cleared before the rest is inserted in the list instead of after; the insertion neither reads nor writes that word.
- mm_check, examine_heap, trace files and timing in the malloc driver: printing and measurement.
- ihash is an arbitrary function in all theorems; the 32-bit FNV-1a hash appears in the example only.
- The JSON text, gob, file names, sockets, sleeps and random choices: files are sequences of pairs as a decoder returns them, messages are abstract, delays and drops are steps that may or may not happen.
- The master, its workers, the network and the test configuration are step systems over values rather than objects with locks; each step is one critical section or one channel operation of the source.
- A panic of the master ends the model: what workers still write afterwards is not described.
- A failed call may leave anything in the output files of its own task, but it is assumed to have stopped writing before the task is tried again.
- Handlers of Raft, Paxos and the key/value servers: stubs in the source.
- unicode.IsLetter is modelled on single bytes, as the programs index strings by byte.
- fork, exec, pipe and dup2 in the shells: system calls.
- delete_trie and print_trie: freeing and printing. Lines longer than the buffer of t9.c are split by fgets; the model takes the lines as fgets returns them. Keys other than the digits 2 to 9 and '#' index outside of the node and are excluded by a precondition.
- Kdebug.RightExactly: for the address 0xfffffffe with adjacent records at it and its successor it does not say on which tables the search is right; that depends on where the windows can be cut, and Kdebug.LuckyExample shows that it can be.
- Kdebug.StabBinsearch: the middle index (l + r) / 2 does not overflow, which holds for tables of less than 2^30 records.
- Numbers.Sink.Printnum: the argument of 64 bits is an unbounded natural number.
- The rest of vprintfmt (strings, error names, parsing of flags and widths), the debuginfo_eip wrapper around stab_binsearch, the boot loader, the bit puzzles, the cache probes and the Python exercises: hardware, tables or small facts.
