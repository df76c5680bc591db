# Verified models of the system programming assignments

Programs and modules of the repository, modelled in Dafny and verified.  Each is modelled in its
own form: code that updates objects, arrays and globals step by step is a class or a
method over mutable state, proved against a specification on values; what the code promises
across calls is then proved about that specification.

| files | component |
|---|---|
| `Wrappers` | an option type |
| `Regions` | what programs and theorems about either allocator share |
| `HeapLayout`, `HeapTags`, `HeapSpec`, `BoundaryTagHeap`, `HeapTheorems`, `HeapClient` | the boundary-tag allocator `heapmgr1.c` on `chunk.c`, with the list search of `heapmgrbase.c` |
| `KRRing`, `KRHeap`, `KRTheorems`, `KRClient` | the Kernighan and Ritchie allocator `heapmgrkr.c` |
| `RwLockSteps`, `RwLock`, `RwLockTheorems` | the reader/writer lock `rwlock.c` |
| `Hash`, `HashTable`, `SkvsText`, `Skvs`, `SkvsTheorems` | the hash table and the request server of the key-value store |
| `Lexer`, `Syntax`, `Command` | the shell's lexer, syntax checker and command builder |
| `Decomment`, `Decommenter` | the comment stripper |

**Boundary-tag allocator.**  Memory is one array of 16-byte cells that holds headers, footers and
the program's data together; `L`, a ghost map from address to chunk, says what the array is meant
to hold.  `Holds` ties the two: header and footer units and statuses are those of `L`, and the
`next` field of each free chunk is the lowest free chunk above it.  The operations write cells one
field at a time and prove that the array holds the new layout and that no data cell of a chunk in
use changed.  The central fact about layouts is that heap bounds and the chunks in use determine
everything else; that frees commute, that malloc and free undo each other and that freeing
everything leaves one chunk all follow from it.  `HeapClient` ties the code to the theorems about
runs: an arbitrary sequence of mallocs, frees and stores, performed on the real class, is proved
to be such a run.

**K&R allocator.**  The same method for a ring.  The system's answer to a request for more memory
is an input, any region apart from what was obtained before.  `Malloc` is proved to terminate with
at most one such request, also when the new memory is merged into the block that becomes the
rover.  `KRClient` performs arbitrary programs on it, again proved to be runs.

**Reader/writer lock.**  A step is one stretch of code run under the mutex.  A wait is a step that
ends asleep; waking up, by signal or by chance, is a step of its own, and a signal may wake any
sleeper.  The methods of the class are these steps, line by line.  `assignment5/readme.md:325`
says that a writer gets the lock only when there is neither reader nor writer.  The code does not
meet this: its second wait loop does not look at the counts again.  `ExclusionCanFail` is a run
of two threads with no spurious wakeup that ends with a writer and a reader inside, whatever other
threads there are; `ExclusiveIffAlone` says that all runs exclude only when there is one thread.
`StepExclusive` and `RunExclusive` say exactly when exclusion holds, for all steps and runs: when
no writer leaves the second loop while the lock is occupied.  `StepEntry` and `RunEntry` do the
same for the readme's sentence itself, entry with neither a reader, inside or pending, nor a
writer.  With both conditions tested in one loop, both hold in every run.

**Key-value store.**  Nodes are heap objects chained by `next`; `chains` and `Contents` are ghost.
Each table operation is proved to act on the map `Contents` as a map operation would, to keep every
key in one node of the bucket its hash names, and to keep both counters.  Parsing works in place on
the receive buffer, as `strtok` does, and accepts exactly the printed forms of requests.  A message
that fills the buffer is cut only at its last byte, so its words may hold newlines.  `SkvsTheorems`
says what clients see, with the lines and answers written out.

**Shell.**  `Lex` is the state machine of `lex_line`; `LexLine` fills a fixed buffer and is proved
never to index past it.  The lines it accepts are proved to be exactly the written forms of their
tokens.  `IsPipeline` describes accepted lines without reference to the syntax checker's flags.

**Comment stripper.**  `Strip` describes the output; the class reads one byte at a time and prints.
An independent description, text as a sequence of lexical elements of which only comments are
replaced, is proved to give the same result for all inputs.  Two deviations of the code are stated
as they are, each with an input that shows it and its exact condition.  An input that ends in a
slash outside literals and comments, or inside a literal in a backslash that escapes nothing, gets
one more byte, the end-of-file value cast to a char.  A newline behind a backslash in a literal is
not counted, so the line number in the error message is right exactly when no literal before the
open comment has one.

## Model

| member | source | states |
|---|---|---|
| HeapSpec.SizeToUnits | assignment3/202011458_assign3/heapmgr1.c:89-93 | the units returned hold size bytes and one unit less would not |
| BoundaryTagHeap.HeapMgr.constructor | assignment3/202011458_assign3/heapmgr1.c:19-24 | before the first call there is no heap and no free list |
| BoundaryTagHeap.HeapMgr.CheckHeapValidity | assignment3/202011458_assign3/heapmgr1.c:33-81 | over sound tags and links the consistency check succeeds if and only if no two neighbouring chunks are both free, so it succeeds at entry and exit of both calls |
| BoundaryTagHeap.HeapMgr.StepDown | assignment3/202011458_assign3/chunk.c:89-107 | the footer below a header leads to the header of the chunk just below, or to none exactly at the bottom of the heap |
| BoundaryTagHeap.HeapMgr.MergeChunk | assignment3/202011458_assign3/heapmgr1.c:126-144 | two touching free chunks become one with all their cells; tags and next list describe the merged layout; data of chunks in use is untouched |
| BoundaryTagHeap.HeapMgr.SplitChunk | assignment3/202011458_assign3/heapmgr1.c:152-181 | the tail of a free chunk becomes a chunk in use of the requested units, the head stays free in the list |
| BoundaryTagHeap.HeapMgr.InsertChunk | assignment3/202011458_assign3/heapmgr1.c:189-211 | with no free chunk below, c goes to the head of the list and is merged upwards when its neighbour is free |
| BoundaryTagHeap.HeapMgr.InsertChunkAfter | assignment3/202011458_assign3/heapmgr1.c:221-248 | behind its free predecessor c enters the list and is merged on both sides where neighbours are free; the survivor is returned |
| BoundaryTagHeap.HeapMgr.RemoveChunkFromList | assignment3/202011458_assign3/heapmgr1.c:255-275 | c leaves the free list and is in use; every other chunk is as before |
| BoundaryTagHeap.HeapMgr.AllocateMoreMemory | assignment3/202011458_assign3/heapmgr1.c:285-318 | on failure nothing changes; on success the heap grows by at least 1024 units and two tags, and the new space is coalesced with a trailing free chunk |
| BoundaryTagHeap.HeapMgr.TakeChunk | assignment3/202011458_assign3/heapmgr1.c:352-383 | a free chunk that fits is split when it is more than two units too large and is taken whole otherwise |
| BoundaryTagHeap.HeapMgr.Malloc | assignment3/202011458_assign3/heapmgr1.c:325-384 | first fit, or growth when nothing fits, or NULL with nothing changed when the system has no more; the heap is valid again and no data cell of a chunk in use changed |
| BoundaryTagHeap.HeapMgr.FindPrevByFooters | assignment3/202011458_assign3/heapmgr1.c:405-418 | the walk down over footers terminates and finds the highest free chunk below c, or none |
| BoundaryTagHeap.HeapMgr.FindPrevByList | assignment3/reference/heapmgrbase.c:370-380 | the scan up the free list finds that same chunk, or none |
| BoundaryTagHeap.HeapMgr.FindPrevBothWays | assignment3/202011458_assign3/heapmgr1.c:405-418 | the two walks return the same chunk, or none, from every valid heap |
| BoundaryTagHeap.HeapMgr.Free | assignment3/202011458_assign3/heapmgr1.c:390-422 | the chunk becomes free and joins its free neighbours on both sides; the heap is valid again and no data cell of a chunk in use changed |
| HeapLayout.ReleaseTiles | assignment3/202011458_assign3/heapmgr1.c:189-248 | releasing a chunk next to its free predecessor keeps the heap tiled with no two free chunks touching, and removes just that chunk from those in use |
| HeapLayout.TakeTiles | assignment3/202011458_assign3/heapmgr1.c:152-181 | serving a request keeps the heap tiled and coalesced and adds one chunk in use of n to n+2 units |
| HeapLayout.GrowTiles | assignment3/202011458_assign3/heapmgr1.c:285-318 | growing keeps the heap tiled and coalesced up to the new end and leaves the chunks in use alone |
| HeapLayout.CanonicalLayout | assignment3/202011458_assign3/heapmgr1.c:189-248 | two coalesced tilings of the same heap with the same chunks in use are equal |
| HeapLayout.AllFreeIsOneChunk | assignment3/202011458_assign3/heapmgr1.c:189-248 | with no chunk in use the layout is one free chunk over the whole heap |
| HeapTheorems.FreeListInOrder | assignment3/202011458_assign3/heapmgr1.c:189-275 | following next from the list head gives exactly the free chunks in increasing address order |
| HeapTheorems.RegionsDisjoint | assignment3/202011458_assign3/heapmgr1.c:325-384 | two chunks in use, tags included, are disjoint and inside the heap |
| HeapTheorems.HeapIsCanonical | assignment3/202011458_assign3/heapmgr1.c:189-275 | heap bounds and chunks in use fix all free chunks, the list head and every next field of the list |
| HeapTheorems.StoreKeepsHeap | assignment3/202011458_assign3/heapmgr1.c:325-384 | a store into the data of a chunk in use cannot break the heap, though tags and data share one memory |
| HeapTheorems.MallocAddsOneChunk | assignment3/202011458_assign3/heapmgr1.c:325-384 | malloc adds exactly one chunk to those in use, at a new address and of the requested units plus at most two, or fails and adds none |
| HeapTheorems.MallocFailsIff | assignment3/202011458_assign3/heapmgr1.c:325-384 | malloc returns NULL if and only if size is 0, or no free chunk is large enough and 1024 units or the request, and two tags, no longer fit below the end of memory |
| HeapTheorems.MallocIsFirstFit | assignment3/202011458_assign3/heapmgr1.c:346-363 | without growth the region is the upper end of the lowest free chunk that is large enough |
| HeapTheorems.MallocGrowsBy | assignment3/202011458_assign3/heapmgr1.c:285-318 | the break moves only when no free chunk is large enough, and then by the larger of 1024 and the request, and two |
| HeapTheorems.FreeRemovesOneChunk | assignment3/202011458_assign3/heapmgr1.c:390-422 | free removes exactly its chunk from those in use and the heap stays tiled and coalesced |
| HeapTheorems.MallocThenFree | assignment3/202011458_assign3/heapmgr1.c:325-422 | malloc followed by free of its result restores sizes, statuses, list head and next list when the heap did not grow |
| HeapTheorems.MallocThenFreeGrown | assignment3/202011458_assign3/heapmgr1.c:285-422 | when it grew, it did so by the units needed and two tags, and what remains is the old heap with that space coalesced with its trailing free chunk |
| HeapTheorems.FreesCommute | assignment3/202011458_assign3/heapmgr1.c:390-422 | freeing the same regions in any two orders gives heaps with the same layout, list head and next list |
| HeapTheorems.FreeingAllLeavesOneChunk | assignment3/202011458_assign3/heapmgr1.c:390-422 | freeing every region in use, in any order, leaves a heap of one free chunk that spans it and is alone in the list |
| HeapTheorems.RunKeepsHeap | assignment3/202011458_assign3/heapmgr1.c:325-422 | with each call leaving a well formed heap, as the contracts of Malloc and Free say, no store in between spoils it: the heap is well formed throughout every run |
| HeapClient.DoWrite | assignment3/202011458_assign3/heapmgr1.c:325-384 | a store by the program into a region it holds leaves the allocator object valid and is a step of a run |
| HeapClient.RunProgram | assignment3/202011458_assign3/heapmgr1.c:325-422 | whatever mallocs, frees and stores a program makes, what happens on the object is a run, well formed after every step, the object stays valid, and the chunks in use are exactly the regions the program holds |
| HeapTheorems.LiveRegionKept | assignment3/202011458_assign3/heapmgr1.c:325-422 | from its malloc to its free a region keeps its address, its units and its data in every run |
| HeapTheorems.LiveCellKept | assignment3/202011458_assign3/heapmgr1.c:325-422 | the same for each data cell by itself |
| KRHeap.NUnits | assignment3/reference/heapmgrkr.c:28 | the units hold nbytes and a header and one unit less would not |
| KRHeap.KRHeapMgr.BetweenIsSucc | assignment3/reference/heapmgrkr.c:75-77 | the loop tests of free hold exactly when the freed block belongs between p and its ring successor |
| KRHeap.KRHeapMgr.FindPlace | assignment3/reference/heapmgrkr.c:75-77 | the search from the rover terminates at the ring block after which the freed block belongs |
| KRHeap.KRHeapMgr.Free | assignment3/reference/heapmgrkr.c:69-89 | the block enters the ring, joined with ring neighbours it touches; exactly it stops being live, and no data of a live block changes |
| KRHeap.KRHeapMgr.MoreCore | assignment3/reference/heapmgrkr.c:52-66 | a refusal changes nothing; a grant of at least 1024 units enters the ring, after which some block is large enough |
| KRHeap.KRHeapMgr.TakeBlock | assignment3/reference/heapmgrkr.c:32-42 | an exact fit leaves the ring, a larger block gives up its tail; the rover is the ring predecessor |
| KRHeap.KRHeapMgr.Scan | assignment3/reference/heapmgrkr.c:31-46 | the loop terminates, asks the system at most once and only when no block fits, and takes the next block in ring order that does |
| KRHeap.KRHeapMgr.Malloc | assignment3/reference/heapmgrkr.c:21-47 | the same from any valid state, the empty one included; live data is untouched |
| KRRing.ReleaseBlocks | assignment3/reference/heapmgrkr.c:78-88 | joining a released block with the ring neighbours it touches keeps blocks disjoint and leaves no two ring blocks touching |
| KRTheorems.RingIsCircular | assignment3/reference/heapmgrkr.c:21-89 | the ptr fields visit every free block once in address order and then return to the lowest: one descent |
| KRTheorems.RingIsJoined | assignment3/reference/heapmgrkr.c:69-89 | blocks are disjoint and no free block ends where its ring successor starts |
| KRTheorems.Conservation | assignment3/reference/heapmgrkr.c:21-89 | ring sizes plus live sizes equal the number of cells ever obtained from morecore |
| KRTheorems.ArenaIsCanonical | assignment3/reference/heapmgrkr.c:69-89 | cells obtained and live blocks fix all blocks and all ptr fields, whatever the rover |
| KRTheorems.MallocAddsLive | assignment3/reference/heapmgrkr.c:21-47 | malloc makes exactly one new block live, of exactly the computed units, at an address where none was |
| KRTheorems.MallocFailsIff | assignment3/reference/heapmgrkr.c:31-46 | malloc returns NULL if and only if no block is large enough and the system grants nothing |
| KRTheorems.MallocGrowsBy | assignment3/reference/heapmgrkr.c:52-66 | the system is asked only when no block is large enough, and then for the larger of 1024 and the request |
| KRTheorems.FirstOnTheWay | assignment3/reference/heapmgrkr.c:31-46 | every block on the way up from the rover to the one taken is too small |
| KRTheorems.UpperEndIsTaken | assignment3/reference/heapmgrkr.c:35-39 | a larger block stays where it is, shorter, and its upper end is returned |
| KRTheorems.ScanGoesOnThere | assignment3/reference/heapmgrkr.c:40 | after malloc the rover points at what is left of the block taken, or at what came after it |
| KRTheorems.RoverIsBeforeFreed | assignment3/reference/heapmgrkr.c:83-88 | after free the rover is the block in front of the one freed, or holds it |
| KRTheorems.FreesCommute | assignment3/reference/heapmgrkr.c:69-89 | freeing the same blocks in any two orders and from any rover gives the same blocks and links |
| KRTheorems.AllFreeAreMaximalRuns | assignment3/reference/heapmgrkr.c:69-89 | with nothing live the ring is the sentinel and exactly one block for each maximal stretch of cells obtained |
| KRTheorems.FreeingAllLeavesMaximalRuns | assignment3/reference/heapmgrkr.c:69-89 | freeing every live block, in any order and from any rover, ends there |
| KRTheorems.MallocThenFree | assignment3/reference/heapmgrkr.c:21-89 | malloc then free of its result restores blocks and links when the system was not asked |
| KRTheorems.MallocThenFreeGrown | assignment3/reference/heapmgrkr.c:21-89 | when the system was asked, what remains is the old arena with the granted region put behind its ring predecessor and joined with the neighbours it touches, also for the first call of all |
| KRTheorems.StoreKeepsArena | assignment3/reference/heapmgrkr.c:21-89 | a store into the data of a live block leaves ring, sizes and accounting intact |
| KRTheorems.RunKeepsArena | assignment3/reference/heapmgrkr.c:21-89 | with each call leaving a well formed arena, as the contracts of Malloc and Free say, no store in between spoils it |
| KRTheorems.LiveRegionKept | assignment3/reference/heapmgrkr.c:21-89 | from its malloc to its free a block keeps its address, its size and the program's data in every run of calls and stores elsewhere |
| KRTheorems.LiveCellKept | assignment3/reference/heapmgrkr.c:21-89 | the same for each data cell by itself |
| KRClient.RunProgram | assignment3/reference/heapmgrkr.c:21-89 | whatever mallocs, frees and stores a program makes on a system that grants memory upwards, what happens on the object is a run, well formed after every step, and the live blocks are exactly those the program holds |
| RwLock.RwLock.ReadLock | assignment5/src/rwlock.c:80-108 | the stretch of read_lock up to its first wait or its end is the machine's step |
| RwLock.RwLock.ReaderRetry | assignment5/src/rwlock.c:91-99 | so is what a woken reader does |
| RwLock.RwLock.ReadUnlock | assignment5/src/rwlock.c:110-139 | so is read_unlock: the last reader signals the writers |
| RwLock.RwLock.WriteLock | assignment5/src/rwlock.c:141-182 | so is write_lock up to a wait in either loop or entry, from taking a ring cell on |
| RwLock.RwLock.WriterRetry | assignment5/src/rwlock.c:155-172 | so is what a woken writer does in the loop it slept in |
| RwLock.RwLock.WriteUnlock | assignment5/src/rwlock.c:184-228 | so is write_unlock: readers are woken if any, else a writer |
| RwLockSteps.EnrolRing | assignment5/src/rwlock.c:152-154 | enrolling overwrites no cell of a writer that has not entered, with no more threads than cells |
| RwLockSteps.EnterRing | assignment5/src/rwlock.c:163-173 | the writer that enters is the one that enrolled first among those pending |
| RwLockSteps.StepInv | assignment5/src/rwlock.c:80-228 | every step of every thread keeps ring, counts and reader notification right |
| RwLockTheorems.WritersEnterInOrder | assignment5/src/rwlock.c:152-173 | in every run writers enter in exactly the order they enrolled and no pending ring cell is overwritten |
| RwLockTheorems.HistoriesGrow | assignment5/src/rwlock.c:152-173 | the orders of enrolment and entry only grow during a run |
| RwLockTheorems.CountsAreRight | assignment5/src/rwlock.c:91-139 | in every run read_count is the readers inside or waiting, write_count the writers inside, and with write_count 0 no reader sleeps unnotified |
| RwLockTheorems.ReaderEntersIff | assignment5/src/rwlock.c:91-99 | a reader, new or woken, gets in if and only if no writer is inside, and is counted either way |
| RwLockTheorems.NewWriterEntersIff | assignment5/src/rwlock.c:152-173 | a new writer gets in if and only if nobody is counted and no writer is pending; else it waits in the loop named |
| RwLockTheorems.WokenWriterEntersIff | assignment5/src/rwlock.c:155-173 | a woken writer gets in if and only if it is the oldest pending and, from the first loop, nobody is counted |
| RwLockTheorems.LastReaderWakesWriter | assignment5/src/rwlock.c:122-130 | the last reader to leave wakes a sleeping writer if there is one |
| RwLockTheorems.OtherReaderWakesNobody | assignment5/src/rwlock.c:122-123 | a reader that is not the last moves nobody but itself |
| RwLockTheorems.LastWriterWakesWriter | assignment5/src/rwlock.c:206-213 | a writer that leaves with no reader counted wakes a sleeping writer if there is one |
| RwLockTheorems.LastWriterWakesReaders | assignment5/src/rwlock.c:198-205 | with readers counted it wakes every sleeping reader and no writer |
| RwLockTheorems.StepExclusive | assignment5/src/rwlock.c:155-172 | a step from an exclusive state breaks exclusion if and only if a writer leaves the second wait loop while the lock is occupied |
| RwLockTheorems.RunExclusive | assignment5/src/rwlock.c:155-172 | a run keeps exclusion throughout if and only if it has no such step |
| RwLockTheorems.StepEntry | assignment5/src/rwlock.c:155-172 | a step lets a writer in with a count above zero if and only if a writer leaves the second wait loop with one |
| RwLockTheorems.RunEntry | assignment5/readme.md:323-326 | in a run writers enter only with no reader, inside or pending, and no writer, if and only if it has no such step |
| RwLockTheorems.ExclusionWithoutSecondLoop | assignment5/src/rwlock.c:155-172 | if no writer ever sleeps in the second loop, exclusion holds and a writer enters only with both counts zero |
| RwLockTheorems.ExclusionWithRetest | assignment5/readme.md:323-326 | if both wait conditions are tested together, as the readme intends, the same holds in every run |
| RwLockTheorems.ExclusionCanFail | assignment5/src/rwlock.c:163-170 | for any number of threads from two on, a run of the code as it is that ends with a writer and a reader inside |
| RwLockTheorems.ExclusiveIffAlone | assignment5/src/rwlock.c:141-182 | the lock as it is excludes in all runs of a number of threads if and only if there is at most one |
| RwLockTheorems.UnlockSucceeds | assignment5/src/rwlock.c:196-202 | in an exclusive state a writer that unlocks finds write_count 1, so it never gets the error return |
| Hash.ComputeHash | assignment5/src/hashtable.c:8-18 | the loop computes the bucket of the key |
| Hash.HashIsPoly | assignment5/src/hashtable.c:8-18 | the hash word is the key's base-32 polynomial modulo 2^32, for signed chars |
| Hash.HashIsSignedNumber | assignment5/src/hashtable.c:8-18 | in char codes: the hash word is the base-32 number of the codes modulo 2^32, codes from 128 on counting as negative |
| Hash.BucketOfOneByte | assignment5/src/hashtable.c:8-18 | the bucket of a key of one byte, of either sign |
| Hash.BucketOfTwoBytes | assignment5/src/hashtable.c:8-18 | the bucket of a key of two bytes of ASCII |
| Hash.LastSevenChars | assignment5/src/hashtable.c:8-18 | the last seven chars alone decide the bucket for any table size |
| Hash.LastTwoChars | assignment5/src/hashtable.h:14 | in a table of the default size the last two chars alone decide it |
| HashTable.Table.constructor | assignment5/src/hashtable.c:20-83 | a fresh table is the empty map with all counters zero |
| HashTable.Table.FindNode | assignment5/src/hashtable.c:168-186 | the chain loop ends at the one node of the key, with the node before it, or at null exactly when the key is absent |
| HashTable.Table.Insert | assignment5/src/hashtable.c:117-161 | an absent key is added, a present one refused, nothing changes on refusal or lack of memory; structure and counters stay right |
| HashTable.Table.Search | assignment5/src/hashtable.c:163-192 | it finds the value of a present key and reports an absent one |
| HashTable.Table.Update | assignment5/src/hashtable.c:194-236 | a present key gets the new value, an absent one is reported; structure and counters stay right |
| HashTable.Table.Delete | assignment5/src/hashtable.c:238-281 | a present key is removed, an absent one is reported; structure and counters stay right |
| HashTable.Table.EachKeyInOneNode | assignment5/src/hashtable.c:117-281 | each key sits in exactly one node, in bucket hash(key), and total_entries = sum of bucket_sizes = map size |
| Skvs.StrTok | assignment5/src/skvslib.c:62-112 | each strtok call cuts off the next word of the buffer in place and leaves the rest of the text for the next call |
| Skvs.UpperInPlace | assignment5/src/skvslib.c:69-73 | the command word is in upper case and nothing else in the buffer changed |
| Skvs.SkvsParse | assignment5/src/skvslib.c:24-121 | parsing in place classifies the received bytes as the word-level description says, all error cases included |
| SkvsText.PrintThenParse | assignment5/src/skvslib.c:24-121 | a printed request, in any letter case and with any spacing within the buffer limit, parses to the same command, key and value |
| SkvsText.ParsedIffPrinted | assignment5/src/skvslib.c:24-121 | bytes parse as a request if and only if their line is a printed form of it: the command in some letter case, a key of at most 32 bytes, a value where one is due, spaces between and around |
| SkvsText.NamesTheCommand | assignment5/src/skvslib.c:69-77 | a name finds a command if and only if letter by letter it is the command word or its small letter |
| SkvsText.IncompleteIff | assignment5/src/skvslib.c:31-60 | more bytes are asked for if and only if the buffer is not full and no newline has come in before a NUL |
| SkvsText.TooLongIsInvalid | assignment5/src/skvslib.c:31-43 | a message over 4096 bytes, or of 4096 without a newline at its end, is invalid |
| SkvsText.InvalidIff | assignment5/src/skvslib.c:62-120 | any other line is invalid if and only if it is no printed request |
| Skvs.SkvsServe | assignment5/src/skvslib.c:154-238 | response and table are those of one request against a plain map |
| Skvs.ServeAll | assignment5/src/server.c:68-93 | the responses to every sequence of messages are those of a plain map, with memory available or not at each of them |
| Skvs.UntouchedKey | assignment5/src/skvslib.c:154-238 | requests that do not write a key leave its entry alone |
| Skvs.ReadBack | assignment5/src/skvslib.c:154-238 | a read returns the value last written under its key, whatever requests for other keys came between |
| SkvsTheorems.CreateLine | assignment5/src/skvslib.c:171-185 | a CREATE line enters a new key and answers CREATE OK; a known key keeps its value and the answer is COLLISION; without memory nothing changes and it is INTERNAL ERR |
| SkvsTheorems.ReadLine | assignment5/src/skvslib.c:186-200 | a READ line answers the value of the key, or NOT FOUND, and changes nothing |
| SkvsTheorems.UpdateLine | assignment5/src/skvslib.c:201-215 | an UPDATE line replaces the value of a known key and answers UPDATE OK; an unknown key is not entered and the answer is NOT FOUND |
| SkvsTheorems.DeleteLine | assignment5/src/skvslib.c:216-230 | a DELETE line removes the key and no other, and answers DELETE OK exactly when it was there |
| SkvsTheorems.LongKeyIsRefused | assignment5/src/skvslib.c:85-89 | a key of more than 32 chars gets INVALID CMD and changes nothing |
| SkvsTheorems.OtherLine | assignment5/src/skvslib.c:231-235 | so does any line that is no printed request |
| SkvsTheorems.NoLineYet | assignment5/src/skvslib.c:168-170 | there is no answer exactly while no line is complete and the buffer has room |
| SkvsTheorems.DeletedIsGone | assignment5/src/skvslib.c:154-238 | after a DELETE line, and messages that do not write its key, a READ line answers NOT FOUND |
| SkvsTheorems.WrittenIsRead | assignment5/src/skvslib.c:154-238 | after a CREATE or UPDATE line, and messages that do not write its key, a READ line answers the value |
| Lexer.LexLine | assignment4/202011458_assign4/lexsyn.c:30-216 | the loop over buffer and state gives the tokens and result of the state machine, or stops at the first token there is no memory for, and never indexes past MAX_LINE_SIZE |
| Lexer.LongIff | assignment4/202011458_assign4/lexsyn.c:44-48 | a line is too long if and only if none of its first 1024 chars ends it |
| Lexer.ResultOfLine | assignment4/202011458_assign4/lexsyn.c:44-216 | memory permitting, a line is too long, or else ends in an open quote and is rejected for it, or else is accepted |
| Lexer.MemoryDecides | assignment4/202011458_assign4/lexsyn.c:12-28 | the line fails for memory exactly when it has more tokens than fit, and then the first ones are kept |
| Lexer.OneWord | assignment4/202011458_assign4/lexsyn.c:62-101 | chars other than white space, special characters and quotes make one word |
| Lexer.TwoWords | assignment4/202011458_assign4/lexsyn.c:115-123 | a space, tab, carriage return, vertical tab or form feed parts two words |
| Lexer.WordSignWord | assignment4/202011458_assign4/lexsyn.c:124-182 | each of the four special characters ends a word, gives its own token and begins another word |
| Lexer.QuotedWord | assignment4/202011458_assign4/lexsyn.c:195-212 | in either kind of quotes every char but that quote stands for itself |
| Lexer.WriteThenLex | assignment4/202011458_assign4/lexsyn.c:30-216 | tokens written with any mixture of bare and quoted pieces and any spacing lex back to the same tokens |
| Lexer.QuoteIsRight | assignment4/202011458_assign4/lexsyn.c:88-205 | every word without newline or NUL, empty or with both quote characters, can be written with quotes |
| Lexer.PrintThenLex | assignment4/202011458_assign4/lexsyn.c:30-216 | every such token sequence, printed with quoting within the line limit, lexes back to itself |
| Lexer.ReadLine | assignment4/202011458_assign4/lexsyn.c:30-216 | every accepted line is its tokens in some written form, with only white space before the end |
| Lexer.AcceptedIffWritten | assignment4/202011458_assign4/lexsyn.c:30-216 | a line is accepted with given tokens if and only if it is a written form of them within the line limit |
| Syntax.SyntaxCheck | assignment4/202011458_assign4/lexsyn.c:218-320 | the result is the error of the first token that has one, else success |
| Syntax.AcceptedIffPipeline | assignment4/202011458_assign4/lexsyn.c:218-320 | a non-empty line is accepted if and only if its pipe-separated segments are commands, with redirections and the ampersand only where allowed |
| Syntax.WhatIsWrong | assignment4/202011458_assign4/lexsyn.c:218-320 | for each error answer, what the token is at which the check stops, what came before it and what comes next |
| Syntax.OneAnswer | assignment4/202011458_assign4/lexsyn.c:218-320 | a line fails in one place with one answer |
| Syntax.ShortestFailures | assignment4/202011458_assign4/lexsyn.c:218-320 | a short line for each error answer, whatever the words are |
| Command.CountPipe | assignment4/202011458_assign4/util.c:52-64 | the count is the number of pipe tokens |
| Command.CheckBg | assignment4/202011458_assign4/util.c:67-77 | one exactly when some token is an ampersand |
| Command.SplitAtPipes | assignment4/202011458_assign4/execute.c:231-273 | the loop cuts the line into count_pipe + 1 adjacent segments, which are all the maximal runs between pipes |
| Command.BuildCommandPartial | assignment4/202011458_assign4/execute.c:59-99 | args holds the arguments, null-terminated, and the redirection targets are opened in order |
| Command.CommandIsSplit | assignment4/202011458_assign4/execute.c:59-99 | for a command, the flags of the loop select exactly the words that stand right after a redirection sign |
| Command.TokensAdd | assignment4/202011458_assign4/execute.c:59-99 | a further word is an argument; behind < it is the input file, behind > the output file; an ampersand adds nothing |
| Command.TypicalCommand | assignment4/202011458_assign4/execute.c:59-99 | a command with an argument and both redirections |
| Command.AcceptedLine | assignment4/202011458_assign4/execute.c:59-99 | in every accepted line each segment has a non-empty argv, its words but for the redirection targets in order; only the first redirects input, only the last output, each at most once; the ampersand is only last |
| Decommenter.Program.PrintLiteral | assignment1/2020-11458_assign1/decomment.c:16-70 | a literal is copied up to its closing quote, a backslash covering the next byte; answers whether the input ended |
| Decommenter.Program.DecommentSl | assignment1/2020-11458_assign1/decomment.c:72-88 | a line comment leaves one space and its newline |
| Decommenter.Program.DecommentMl | assignment1/2020-11458_assign1/decomment.c:90-121 | a block comment leaves one space and its newlines; the input ending first is reported with the line of its opening |
| Decommenter.Program.Decomment | assignment1/2020-11458_assign1/decomment.c:126-200 | output, exit status and error line are those of the specification for every input |
| Decomment.StripKeepsNewlines | assignment1/2020-11458_assign1/decomment.c:126-200 | output and input have the same number of newlines unless a comment is left open |
| Decomment.OutputIsClean | assignment1/2020-11458_assign1/decomment.c:126-200 | the output has no comment outside literals |
| Decomment.Idempotent | assignment1/2020-11458_assign1/decomment.c:126-200 | stripping twice is stripping once, and a text is left unchanged if and only if it has no comment and no dangling slash or backslash at its end |
| Decomment.StripElements | assignment1/2020-11458_assign1/decomment.c:126-200 | text read as plain bytes, literals and comments gives each plain byte and literal as it is and each comment as a space and its newlines, whatever follows |
| Decomment.EveryText | assignment1/2020-11458_assign1/decomment.c:126-200 | every input is such a sequence of elements followed by a piece that is not complete |
| Decomment.CommentsAreReplaced | assignment1/2020-11458_assign1/decomment.c:126-200 | text of whole elements succeeds with every comment replaced |
| Decomment.InputThatEnds | assignment1/2020-11458_assign1/decomment.c:126-200 | the output for every input that does not end inside a block comment; one byte too many exactly when its last piece is a lone slash or a literal ending in a backslash that escapes nothing |
| Decomment.CommentLeftOpen | assignment1/2020-11458_assign1/decomment.c:94-103 | an unterminated comment is an error, and the reported line is that of its opening if and only if no literal before it has an escaped newline |
| Decomment.QuotedIsCopied | assignment1/2020-11458_assign1/decomment.c:16-70 | between quotes of either kind text is copied, comments and all |
| Decomment.EscapeIsCopied | assignment1/2020-11458_assign1/decomment.c:31-36 | so is a backslash with whatever byte is behind it, the quote included, without ending the literal |
| Decomment.OtherByte | assignment1/2020-11458_assign1/decomment.c:189-194 | a byte other than the two quotes and the slash opens nothing and is printed |
| Decomment.PlainSlash | assignment1/2020-11458_assign1/decomment.c:172-186 | a slash opens a comment only in front of a slash or a star |
| Decomment.LineCommentGone | assignment1/2020-11458_assign1/decomment.c:72-88 | a line comment comes out as a space and the newline |
| Decomment.BlockCommentGone | assignment1/2020-11458_assign1/decomment.c:90-121 | a block comment on one line comes out as a space |
| Decomment.LoneSlashGrows | assignment1/2020-11458_assign1/decomment.c:158-185 | the input of one slash comes out with the end-of-file byte behind it |
| Decomment.LoneBackslashGrows | assignment1/2020-11458_assign1/decomment.c:31-36 | so does an input that ends in a backslash inside a literal |
| Decomment.WrongLineReported | assignment1/2020-11458_assign1/decomment.c:31-38 | an input whose comment opens on line 2 and is reported on line 1 |

## Left out

- BoundaryTagHeap.HeapMgr.AllocateMoreMemory: does not model failure of the second of its two sbrk calls after the first succeeded; the model's one call obtains everything or nothing.
- Overflow of size_t and of the int parameter of chunk_set_units: units are unbounded integers.
- The footer back links as an inverse list: merge_chunk reads the footer of c1 at line 139 after it has changed c1's units, so the merged chunk keeps the link of c2; nothing follows these links and the model claims nothing about their value, though it performs the writes.
- HeapTheorems.StoreKeepsHeap: the program is assumed to store only into data cells of chunks it holds, as the interface demands.
- heapmgr2.c: its merge_chunk takes the successor of c2 for an element of c1's list, while insert_chunk_after may merge with a chunk of another bin, so these invariants do not hold for it.
- KRHeap.KRHeapMgr.Malloc: what sbrk answers is an input, required to lie apart from earlier grants and not to end at the sentinel; the sentinel lies outside the memory granted.
- KRClient.RunProgram: the system offers memory at a break that moves past each offer, and refuses at the end of memory; KRHeap.KRHeapMgr.Malloc allows any other choice.
- KRTheorems.RingIsJoined: the zero-size sentinel is exempt, it owns no cells and is never merged with.
- Liveness of the lock: `assignment5/readme.md:324-326` wants the oldest waiting writer signalled, but a condition signal may wake one whose turn it is not, so the code promises nothing here; error returns of pthread calls, rwlock_init, rwlock_destroy and the artificial delay.
- RwLockTheorems.WritersEnterInOrder: for at most WRITER_RING_SIZE threads, as the ring has no overflow check.
- RwLock.RwLock.WriteLock: a method is one stretch under the mutex, so the wait inside it is the boundary to WriterRetry; unlocks are called only by holders.
- HashTable.Table.Insert: table operations run one after another; unsynchronised updates of total_entries by threads in different buckets are not modelled, and one flag stands for every allocation in a call.
- HashTable.Table.constructor: always has the memory and the locks it needs; the failure returns of hash_init are not modelled.
- HashTable.Table.FindNode: the chain loop the four table operations each repeat is one method.
- hash_destroy, hash_dump, skvs_init, skvs_destroy and the tracing macros: freeing and printing.
- Skvs.ServeAll: each message is received whole; sockets, partial reads and writes, worker threads and shutdown are system calls.
- Lexer.LexLine: memory runs out at a token, not inside the making of one; the contents of the buffer after the terminating NUL.
- Command.BuildCommandPartial: at most MAX_ARGS_CNT - 1 arguments, since the code does not check; opening a redirection target is recorded, not performed.
- fork, exec, pipe, dup2, signals, built-in commands and the table of background processes: system calls and handler races.
- Decommenter.Program.PrintLiteral: print_char and print_str differ only in the quote and are one method with the quote as a parameter.
- Decommenter.Program.Decomment: bytes are chars with codes below 256; input past its end keeps reading as end of file.
- dirtree.c, dynarray.c and token.c: input and output with an easy comparator, and containers for which sequences stand.
