# Verification of the course projects' algorithmic cores

A Dafny model of the five projects of the repository that hold algorithms rather than process
plumbing, with proofs of what those algorithms promise.

* **Shared-memory hash table (p5, p6).** 2048 nodes linked by index, 256 bucket heads and the head
  of a free list. `Arena` has the relinking routines as values and proves what their writes do to
  the chains; `Dictionary` proves that the arena is a finite map; `HashTable` is p6's table as a
  class over two arrays, with sliding expiry and the cleaner's bucket sweep; `Expiry` says what a
  client may conclude from the replies over a whole history, and `ExpiryLaws` which replies those are;
  `Cleaner` says what the cleaner evicts;
  `Histories` runs requests and sweeps, mixed, on the table itself.
* **Worker processes (p5).** `TableOperation` splits every request into single reads and writes of
  the shared memory; `Workers` interleaves four workers in any order, with the section semaphores;
  `Linearize` proves that inside one locked section all replies are those of a sequential map,
  `Conversations` that each worker's requests have their places in that sequence, `ReplyLaws` which
  replies those are,
  `Progress` that no worker stays there for long, `Starvation` that one may wait for it all the same,
  and `SectionRace` that in any other case replies need not be in sequence.
* **Allocator (p1).** `BlockList` has first fit, coalescing and compaction on values, `Allocator` the
  class whose block objects are the handles, with a byte buffer that compaction moves in place;
  `AllocatorRun` is about its client, over whole runs; `Growing` is about the growing branch of
  realloc, on values.
* **Merge sort (p9).** `MergeSort` is the in-place algorithm; `MergeSortOrder` determines its output
  uniquely; `ParallelSort` runs the task-parallel version under every schedule.
* **Prefix tree (p7).** `TrieOrder`, `TrieWords` and `TrieGrowth` are about trees as pools of nodes,
  `Trie` is the class with the explicit-stack traversals; `WordFile` is how its word list is read.
* **Shell (p4).** `Tokenizer` gives command lines an unambiguous grammar, `Lexemes` says what it means
  for the characters of a line, `Parser` is the three-accumulator parser, `Runner` groups tokens and
  runs the list with the skip loop.

Classes with fields stand for the objects that the programs update in place, arrays for their
buffers. Each method is proved against a function of its inputs or of the old state, and lemmas
about that function state what is promised. `WeakOrder` is what a C++ sort asks of `operator<`;
clock readings, exit statuses and schedules are parameters, and the theorems hold for all of them.

## Main results

1. `Linearization.RepliesAreSequential`: with four workers interleaved access by access over any
   requests to one locked section, every reply is that of a plain map serving the requests in the
   order in which they acquired the section, and at rest the memory holds exactly that map.
   `ReplyLaws.RepliesSentAreLawful` says the same of requests and replies alone: with all requests in
   one order, in which each comes between its receipt and its reply (`Conversations.LogIsOfRequests` and
   `LogKeepsTime`), a get is answered with what was set last and not deleted since, a del says whether
   there was such a value, and a set is refused exactly if its key is not stored and 2048 others are.
   `SectionRace.SequentialExactly`: for requests to any two of the 32 sections there are such replies in
   every run exactly if the two are one and it is locked, because nothing locks the free
   list they share; the schedule that shows it ends with a stored key not being found.
2. `Workers.PermitsConserved` and `Workers.ExclusionExactly`: permits are conserved in every reachable
   state, errors included; of the 32 sections exactly the 8 that have a semaphore are exclusive.
   That the other 24 are not is a defect of the program, shown by a schedule for each of them.
   `Progress.LeavesInTime`: when all requests are to one locked section, a worker inside it leaves it
   within 4365 of its own turns, however the others move. `Starvation.WriterMayStarve`: even so a set request may have to wait for any
   number of turns, while readers take turns.
3. `ExpiringTable.HashTable.Set`, `Get`, `Del` refine a bounded map with expiry; the representation
   invariant (partition into acyclic doubly linked chains, each node in its key's bucket) is kept by
   all routines, and `Dictionary.ReservedPlusFree` makes NoMemory happen at exactly 2048 entries.
4. `Expiry.GetReturnsLiveValue`: over any history with sweeps and late lookups in between, a lookup
   returns a value iff it is the one last set and no older than its time to live since the last touch.
   `ExpiryLaws.RepliesAreLawful`: over any history, a set is refused exactly if its key is not stored and
   2048 others are, and a lookup or del says whether nothing is stored, something dead, or a live value.
   `Histories.ServeAll`, `ServeLawfully`, `GetAfter` and `DelAfter`: under any mixture of requests and bucket sweeps the
   table itself has such a history, made of the requests and one look at each stored key of each swept
   bucket, and the last touch is the one read off the requests and the replies to them alone.
5. `Cleaning.Clean` and `Cleaning.CleanMissesTheRest`: the cleaner evicts the expired entries of
   buckets 0 to 7 and no other, so it does its job exactly if no other bucket holds an expired one;
   `Cleaning.CleanLeavesADeadEntry` is one request after which it does not.
6. `AllocatorRun.Client.Run`: over any run of alloc, free, non-growing realloc, defrag and the client's
   own writes, the live pointers are independent texts: each request changes the one it names as it
   says and no other, pointers never share a byte, the texts and the free bytes add up to the buffer, and a
   request fails iff no row of free bytes is long enough. Beneath it: `BlockList.FirstFitIsLowest`,
   `Allocation.Allocator.Alloc`, `Allocation.Allocator.Defrag`.
   `Growing.GrowthIsRightExactly`: growing a block keeps the list in order and gives the pointer a block
   of the new size in place of its old one exactly if no long enough row of available bytes begins at the block or before it, and the
   first large enough free block behind it has no free byte behind it, and is larger than asked for or
   has nothing behind it. Growing in place always loses the block, already on a new buffer; a place of
   just the size asked for leaves an empty block that hides the next one (`Growing.EmptyBlockHidesNext`).
7. `MergeSortOrder.SortingIsTheOnly`: merge sort's output is the one ascending sequence in which
   equal elements are in reverse order. `ParallelSort.ParallelIsSequential` and
   `ParallelSort.MovesAreBounded`: every schedule of the tasks ends, and ends in that sequence.
8. `PrefixTrie.Trie.GetWords`: the two-stack search returns the first ten completions in alphabetical
   order, and `PrefixTrie.Complete` says from the file to the answer which words those are, by the codes of
   their letters; `PrefixTrie.Trie.Destroy`: every node is deleted once, after its children, and not touched
   afterwards; `WordFile.LinesAreReadIffShort`: a word list of whole lines is read as it is written
   exactly if none is longer than 62 characters, and `WordFile.LastLineIsNeverRead`: never if its last
   line has no line break.
9. `CommandLine.ReadingIsUnique`, `CommandParser.Parser.Parse`, `CommandParser.TokenizingIsIdempotent`:
   every line has one reading, the parser finds it, and printing tokens and parsing again gives them back.
   `Lexemes.TokensCutTheLine`: where the tokens lie in the line, and which characters they consist of.
10. `CommandRunner.Run`: the skip loop runs what left-associative short-circuit evaluation runs.
   `CommandRunner.RunLine`: of the commands between the operators of a line, one behind `&&` is run exactly
   if the last one that was run exited with 0, one behind `||` exactly if it did not, all others always.

## Model

| member | source | states |
|---|---|---|
| Arena.GetHash | p6/HashTable.h:119 | every key, negative ones too, has one of the 256 buckets |
| Arena.HeadOf | p6/HashTable.cpp:154-161 | the search over all heads by index finds the first bucket whose head is the node, or none |
| Arena.ChainPush | p6/HashTable.cpp:28-31 | linking a node in front of a chain makes it that chain's first node, although its own n_prev is not written |
| Arena.ChainRemove | p6/HashTable.cpp:163-164 | bypassing a node leaves exactly the chain without it, whether it was first, last or in between |
| Arena.MoveKeepsPartition | p6/HashTable.cpp:132-173 | moving a node between two chains keeps every node in exactly one chain, once |
| Arena.MoveKeepsLinked | p6/HashTable.cpp:132-173 | a move that rewires its two chains and touches no other keeps all 257 chains linked both ways |
| Arena.HeadAtHome | p6/HashTable.cpp:134-147 | a head is NIL exactly if its chain is empty, and otherwise is a node of that chain |
| Arena.InsertMoves | p6/HashTable.cpp:21-32 | taking a free node and linking it moves it from the free list to the front of its key's bucket, links intact |
| Arena.ReleaseMoves | p6/HashTable.cpp:150-173 | freeing a node moves it from its bucket to the front of the free list, links intact |
| Dictionary.SearchAdvances | p6/HashTable.cpp:124-130 | each step of the search either is at the node that holds the key or rules one more node out |
| Dictionary.SearchEnds | p6/HashTable.cpp:124-130 | a search that comes to the end of the bucket has proved the key is stored nowhere |
| Dictionary.InsertAdds | p6/HashTable.cpp:21-32 | a new key's entry is added to the map and nothing else changes |
| Dictionary.OverwriteUpdates | p6/HashTable.cpp:15-19 | writing a held node's entry updates the map at its key only |
| Dictionary.ReleaseRemoves | p6/HashTable.cpp:150-173 | freeing a node removes its key from the map and nothing else |
| Dictionary.ReservedPlusFree | p6/HashTable.cpp:94-122 | stored entries and free nodes add up to 2048, and the table is full iff the free list is empty |
| Dictionary.FreshIsEmpty | p6/HashTable.h:92-109 | memory as set up at the start is a valid, empty table |
| ExpiringTable.HashTable.SharedMemorySet | p6/HashTable.h:92-109 | the loops leave all buckets empty and all nodes on one free chain, keys and values untouched |
| ExpiringTable.HashTable.constructor | p6/HashTable.cpp:3-9 | over such memory the table is valid and empty |
| ExpiringTable.HashTable.FindNode | p6/HashTable.cpp:124-130 | returns the node that holds the key, and null iff the map lacks it |
| ExpiringTable.HashTable.GetNodeFree | p6/HashTable.cpp:132-148 | takes the head of the free list, or changes nothing when there is none |
| ExpiringTable.HashTable.SetNodeFree | p6/HashTable.cpp:150-173 | the node's key leaves the map, every other entry stays, and the node heads the free list |
| ExpiringTable.HashTable.Set | p6/HashTable.cpp:11-33 | refines set of the bounded map; refused with NoMemory iff the key is new and 2048 are stored, and then nothing changes |
| ExpiringTable.HashTable.Get | p6/HashTable.cpp:35-63 | refines lookup with sliding expiry: a live entry's life is extended, an expired one is evicted alone |
| ExpiringTable.HashTable.Del | p6/HashTable.cpp:65-92 | refines deletion; an expired entry is deleted too but reported as not existing |
| ExpiringTable.HashTable.SweepNode | p6/main.cpp:126-133 | one round frees the node iff it is expired, and the cursor is already at the right next node |
| ExpiringTable.HashTable.SweepBucket | p6/main.cpp:125-133 | a sweep frees exactly the nodes expired when looked at, keeps the others in order with links intact, and ends |
| ExpiringTable.SweepVisits | p6/main.cpp:128-129 | while sweeping, the next link of the node looked at still leads to the next node of the old chain |
| ExpiringTable.SweepMoves | p6/main.cpp:131-132 | freeing the node looked at takes it out of the middle of the chain and puts it first on the free list |
| Expiry.StepTracks | p6/HashTable.cpp:11-92 | each request keeps the store equal to what the last touch of a key says, or the touch is dead |
| Expiry.StoreTracksTouch | p6/HashTable.cpp:11-92 | the same over every history with a clock that does not run backwards |
| ExpiryLaws.FoldStoresHeld | p6/HashTable.cpp:11-92 | what is stored under a key, and until when, can be told from the requests, the looks of the cleaner and the replies |
| ExpiryLaws.RepliesAreLawful | p6/HashTable.cpp:11-92 | over every history: set is refused with NoMemory iff the key is not stored and 2048 are; get and del answer NoKey iff nothing is stored, NotExists iff it is dead, and else the value or Done |
| ExpiryLaws.LawfulIsUnique | p6/HashTable.cpp:11-92 | these laws leave no choice of replies |
| ExpiryLaws.DelReportsLive | p6/HashTable.cpp:65-92 | a del is answered Done iff, sweeps unseen, the key was set or read within its ttl |
| Expiry.GetReturnsLiveValue | p6/HashTable.cpp:35-63 | a lookup returns v iff v was the value last set and at most its ttl has passed since it was last set or read |
| Serving.Execute | p6/Worker.cpp:157-210 | a request leaves the table and replies as the map's step says, exceptions included |
| Serving.Serve | p6/Worker.cpp:157-210 | any list of requests gives the replies and the contents of the map's run |
| Serving.BucketHolds | p6/main.cpp:127-129 | the nodes of a bucket hold distinct stored keys |
| Serving.SweepIsEvents | p6/main.cpp:125-133 | sweeping a bucket evicts what looking at its keys one by one would evict |
| Cleaning.SweptWhen | p6/main.cpp:131-132 | a node is swept if it was expired before the sweep began, and only if it is expired when it ends |
| Cleaning.BucketLooks | p6/main.cpp:127-129 | visiting a bucket's nodes is one look at each stored key of that hash, and at no other |
| Cleaning.CleanBucket | p6/main.cpp:125-133 | a bucket's expired entries go, all other entries stay; to a client it is one look at each of its stored keys |
| Cleaning.Clean | p6/main.cpp:114-137 | the outer loops evict expired entries of buckets 0 to 7 only |
| Cleaning.CleanMissesTheRest | p6/main.cpp:118-124 | a pass touches nothing in buckets 8 to 255, and leaves nothing that was expired when it began iff nothing there was |
| Cleaning.CleanLeavesADeadEntry | p6/main.cpp:118-124 | after one set of key 8 and one pass, the expired entry is still stored |
| Histories.SweepIsSeen | p6/main.cpp:125-133 | a sweep between two requests changes neither the requests heard nor the replies given so far |
| Histories.ServeAll | p6/Worker.cpp:157-210 | any mixture of requests and bucket sweeps takes the table through one clocked history, each request for itself and each sweep for one look at every stored key of its bucket, and gives its replies |
| Histories.TouchIsSeen | p6/HashTable.cpp:35-63 | when a key was last set or read can be told from the requests and the replies to them, sweeps unseen |
| Histories.ServeLawfully | p6/Worker.cpp:157-210 | on a table that was empty, the replies to any mixture of requests and sweeps keep those laws, each sweep looking at the keys stored by them, and so does what is stored in the end |
| Histories.AskAfter | p6/Worker.cpp:157-210 | one more request gets the reply of that history, and its key's last touch is known from the requests and replies before |
| Histories.DelAfter | p6/HashTable.cpp:65-92 | after any such mixture a del on the table is answered Done iff the key is live by the requests and the replies returned for them |
| Histories.GetAfter | p6/HashTable.cpp:35-63 | after any such mixture a lookup on the table returns a value iff it is live by the requests and the replies returned for them |
| TableOperation.InsertRest | p5/HashTable.cpp:21-30 | the single accesses of an insertion add up to the insertion |
| TableOperation.ScanRest | p5/HashTable.cpp:129-136 | reading the heads one by one patches exactly the first one that is the node |
| TableOperation.ReleaseRest | p5/HashTable.cpp:125-148 | the single accesses of freeing a node add up to freeing it |
| TableOperation.RestIsOutcome | p5/HashTable.cpp:11-65 | once the search is over, the accesses of set, get and del that follow add up to the whole operation |
| PlainTable.OutcomeIsPlainStep | p5/HashTable.cpp:11-65 | an undisturbed operation is a step of the plain map, with its reply; get changes nothing |
| Workers.SemIdIs | p5/main_worker.cpp:51-52 | eight buckets next to each other make a section, for negative keys too |
| Workers.TotalAfterUpdate | p5/main_worker.cpp:20-31 | a worker that moves changes the permits taken by its own share only |
| Workers.StepConservesAt | p5/main_worker.cpp:54-104 | every step, the exception path included, returns exactly what was taken |
| Workers.PermitsConserved | p5/Server.cpp:10-13 | in every reachable state free permits + readers + 4 * writers = 4 for every semaphore |
| Workers.WriterExcludes | p5/main_worker.cpp:58-74 | two workers inside a locked section are both readers |
| Workers.BlockedBySomeone | p5/main_worker.cpp:58-74 | a worker waits only while another that can move is inside its section |
| Workers.NoClashWhenLocked | p5/main_worker.cpp:51-52 | in sections below 8 no writer ever meets another worker |
| Workers.ClashWhenNotLocked | p5/main_worker.cpp:51-52 | in every other section there is a schedule in which two writers meet |
| Workers.ExclusionExactly | p5/main_worker.cpp:51-52 | a section is exclusive in all runs iff its index is below 8 |
| Linearization.AccessKeepsFlight | p5/HashTable.cpp:11-65 | every single access keeps a request on its way to the outcome it would have had alone |
| Linearization.FreeToEnter | p5/main_worker.cpp:58-74 | when the permits are there no writer is inside, and for a writer nobody is |
| Linearization.OthersOnCourse | p5/main_worker.cpp:54-74 | an access by one worker does not disturb the others inside the section |
| Linearization.FlightLands | p5/main_worker.cpp:58-74 | a finished request has the plain map's reply and leaves the plain map's memory |
| Linearization.StepKeeps | p5/main_worker.cpp:47-107 | every turn of every worker keeps the linearization invariant |
| Linearization.RepliesAreSequential | p5/main_worker.cpp:47-107 | linearizability over every run of requests to one locked section |
| Conversations.LogIsOfRequests | p5/main_worker.cpp:47-107 | in every run each worker's requests are in the log once, in the order of their receipt, with the replies it sent, and nothing else is |
| Conversations.LogKeepsTime | p5/main_worker.cpp:47-107 | what has entered a section by some time comes in the log before all that enters later |
| ReplyLaws.PlainHoldsLastWrite | p5/HashTable.cpp:11-65 | the plain map holds under each key what a set answered without error or a del has left there last |
| ReplyLaws.LawfulIsUnique | p5/main_worker.cpp:52-95 | the laws leave no choice of replies |
| ReplyLaws.RepliesAreLawful | p5/main_worker.cpp:47-107 | in every run of requests to one locked section: get answers 0 and what was written last, or 1; del 0 iff something is stored, else 1; set 2 iff its key is not stored and 2048 are, else 0; at rest the memory holds the last writes |
| ReplyLaws.RepliesSentAreLawful | p5/main_worker.cpp:47-107 | so is every reply that a worker sends, at the place of its request in the one log |
| SectionRace.StolenRest | p5/HashTable.cpp:107-123 | an insertion that has read the free list's head goes on with that node, whatever happens to the node meanwhile |
| SectionRace.StolenTwice | p5/HashTable.cpp:99-105 | after two insertions have taken the same node, the first key's bucket leads to the second key only |
| SectionRace.FreeListRace | p5/main_worker.cpp:51-67 | for any two keys in different buckets, not of one locked section, there is a run in which a set is answered DONE and a later get of that key NO_KEY |
| SectionRace.SequentialExactly | p5/main_worker.cpp:51-62 | for any two of the 32 sections: the replies to requests to them keep the laws in every run iff the two are one and below 8 |
| TableOperation.NextRank | p5/HashTable.cpp:11-65 | once the search is over every access leaves fewer to come |
| Progress.ChainIsBounded | p5/HashTable.cpp:99-105 | a bucket has at most 2048 nodes |
| Progress.AccessComesCloser | p5/HashTable.cpp:11-65 | every access of a request, the search included, leaves fewer to come |
| Progress.StepComesCloser | p5/main_worker.cpp:54-74 | a turn takes the worker whose turn it is closer to its end and no other further from it |
| Progress.LeavesInTime | p5/main_worker.cpp:58-74 | from any point of any run of requests to one locked section on, a worker inside it has left it after at most 4365 turns of its own |
| Starvation.ReadersTakeTurns | p5/main_worker.cpp:58-74 | a reader that comes before the last one goes keeps the permits below four |
| Starvation.WriterMayStarve | p5/main_worker.cpp:58-74 | for every n there is a run in which a set request is refused entry n times while n get requests to its section are answered |
| MergeSort.Copy | p9/n_merge_sort.cpp:14 | memcpy replaces one range and nothing else |
| MergeSort.MergeRuns | p9/n_merge_sort.cpp:6-10 | the loop fills tmp with the merged prefix until one run is used up |
| MergeSort.CopyRests | p9/n_merge_sort.cpp:11-22 | what is left of the runs is put behind what is merged, and nothing else in tmp changes |
| MergeSort.Merge | p9/n_merge_sort.cpp:4-25 | the range becomes the merge of its two runs, ties from the right, and nothing outside changes |
| MergeSort.SortingInPlace | p9/n_merge_sort.cpp:29-35 | sorting both halves of a range and merging them is sorting the range |
| MergeSort.Mergesort | p9/n_merge_sort.cpp:27-36 | the range becomes its sorted sequence and nothing outside it changes |
| MergeSortOrder.MergedTies | p9/n_merge_sort.cpp:9-10 | among equal elements those of the right run come first |
| MergeSortOrder.SortingPermutes | p9/n_merge_sort.cpp:27-36 | the output is a permutation of the input |
| MergeSortOrder.SortingSorted | p9/n_merge_sort.cpp:27-36 | the output is ascending |
| MergeSortOrder.SortingReversesTies | p9/n_merge_sort.cpp:27-36 | equal elements come out in the reverse of their order |
| MergeSortOrder.SortedByTies | p9/n_merge_sort.cpp:27-36 | two ascending sequences with the same order of equal elements are the same |
| MergeSortOrder.SortingIsTheOnly | p9/n_merge_sort.cpp:27-36 | a sequence is the output iff it is ascending and has all ties reversed |
| ParallelSort.StepIsLocal | p9/p_merge_sort.cpp:33-43 | a task step reads and writes inside the task's range only |
| ParallelSort.StepKeepsCourse | p9/p_merge_sort.cpp:27-48 | every step of any task keeps each task on its way to its sorted range |
| ParallelSort.JoinKeepsCourse | p9/p_merge_sort.cpp:43-46 | after taskwait both halves are sorted, so merging them sorts the range |
| ParallelSort.RunKeepsCourse | p9/p_merge_sort.cpp:27-48 | the same under every schedule |
| ParallelSort.ParallelIsSequential | p9/p_merge_sort.cpp:27-48 | every schedule that finishes leaves the array the sequential sort leaves |
| ParallelSort.SomeTaskMoves | p9/p_merge_sort.cpp:33-46 | as long as the sort is not finished some task can move |
| ParallelSort.MovesAreBounded | p9/p_merge_sort.cpp:27-48 | a schedule can only make so many moves, a number known beforehand |
| BlockList.FirstFit | p1/allocator.cpp:15-39 | the search stops at the first free block that is large enough, passing none |
| BlockList.RunInOneBlock | p1/allocator.cpp:169-201 | in a coalesced list free bytes in a row lie in one block |
| BlockList.FirstFitIsLowest | p1/allocator.cpp:10-48 | the search fails iff n free bytes in a row exist nowhere, and else finds the lowest place |
| BlockList.PlaceKeepsOk | p1/allocator.cpp:25-32 | using a block and splitting off the rest keeps tiling and coalescing |
| BlockList.FoundIffNotHidden | p1/allocator.cpp:203-213 | the search by offset finds a block iff the block right before it is not empty |
| BlockList.AllFoundIffNoneEmpty | p1/allocator.cpp:203-213 | it finds every block iff none but the last is empty |
| BlockList.ZeroBytesHideTheNext | p1/allocator.cpp:23-35 | after an alloc request it does so iff the request was for at least one byte, or got the empty block at the end |
| BlockList.CoalesceKeeps | p1/allocator.cpp:169-201 | merging leaves no free neighbours, and each byte is used or free as before |
| BlockList.ReleaseKeeps | p1/allocator.cpp:162-166 | freeing frees the bytes of that block and no others, and conserves the total |
| BlockList.CutKeeps | p1/allocator.cpp:91-95 | shrinking a block frees the bytes of its tail and no others |
| BlockList.TotalsMakeSize | p1/allocator.cpp:50-74 | used and free lengths add up to the buffer's size |
| BlockList.SlideTiles | p1/allocator.cpp:55-71 | the moved blocks lie side by side from 0 on |
| BlockList.CompactKeepsOk | p1/allocator.cpp:50-74 | after compaction the list tiles the buffer with as much free space as before |
| BlockList.CompactGivesAll | p1/allocator.cpp:50-74 | right after it a request succeeds iff it asks for no more than the total free length |
| BlockList.BlocksDisjoint | p1/allocator.h:29-49 | two blocks of a tiling list have no byte in common |
| Allocation.Allocator.constructor | p1/allocator.cpp:4-8 | one free block covers the buffer |
| Allocation.Allocator.HandlesDisjoint | p1/allocator.h:51-61 | two live handles never share a byte, and lie in the buffer |
| Allocation.Allocator.Take | p1/allocator.cpp:25-32 | the found block becomes the handle with exactly n bytes, its rest a new free block |
| Allocation.Allocator.Alloc | p1/allocator.cpp:10-48 | throws, changing nothing, iff no n free bytes in a row exist; else the lowest place, and other handles stay |
| Allocation.Allocator.MergeRound | p1/allocator.cpp:176-196 | one round of the loop extends the coalesced part of the list by one block |
| Allocation.Allocator.MergeEmptyBlocks | p1/allocator.cpp:169-201 | the list becomes its coalesced form; used objects, their order and fields stay |
| Allocation.Allocator.Free | p1/allocator.cpp:152-167 | a null pointer is refused; a live one is no handle any more, and the others keep their place |
| Allocation.Allocator.FindBlock | p1/allocator.cpp:203-213 | the search by offset finds the handle's own block |
| Allocation.Allocator.Shrink | p1/allocator.cpp:91-95 | the block keeps its offset and first n bytes, its tail becomes free |
| Allocation.Allocator.Realloc | p1/allocator.cpp:76-95 | null allocates, equal changes nothing, smaller shrinks in place; the other handles stay |
| Allocation.Allocator.MemMove | p1/allocator.cpp:68 | copying downwards is right although the two ranges overlap |
| Allocation.Allocator.CompactRound | p1/allocator.cpp:55-71 | one round moves a used block without touching the bytes of the blocks before or after it |
| Allocation.Allocator.Defrag | p1/allocator.cpp:50-74 | every handle reads the same bytes afterwards, in the same order, and free space is one block |
| AllocatorRun.Client.Alloc | p1/allocator.cpp:10-48 | a new text of n bytes, or none iff no n bytes in a row are free; all others as before |
| AllocatorRun.Client.Free | p1/allocator.cpp:152-167 | the text is gone, all others as before |
| AllocatorRun.Client.ReallocNull | p1/allocator.cpp:78-82 | a null pointer gets a text of n bytes, or none iff no n bytes in a row are free |
| AllocatorRun.Client.Shrink | p1/allocator.cpp:89-95 | the text is cut to its first n bytes, all others as before |
| AllocatorRun.Client.Write | p1/allocator.h:57 | a byte written through one pointer is not seen through any other |
| AllocatorRun.Client.Defrag | p1/allocator.cpp:50-74 | all texts as before |
| AllocatorRun.ServedMeans | p1/allocator.cpp:10-201 | what each request does, whenever the client has the pointer and the bytes it names |
| AllocatorRun.Client.Serve | p1/allocator.cpp:10-201 | every request changes the text it names as specified, and no other |
| AllocatorRun.TextsAreUsedBytes | p1/allocator.h:51-61 | if every used block has one pointer and every pointer its block, the texts are as long as the used blocks |
| AllocatorRun.Client.NothingSharedNothingLost | p1/allocator.cpp:10-201 | live pointers never share a byte; the texts' lengths are the used bytes, and with the free ones they add up to the buffer's size |
| AllocatorRun.Client.Run | p1/allocator.cpp:10-201 | the same for every step and every state of every run |
| AllocatorRun.AllocAfterDefrag | p1/allocator.cpp:50-74 | right after defrag a request succeeds iff it asks for no more than the live texts leave of the buffer |
| Growing.FindCandidate | p1/allocator.cpp:98-118 | the loop finds the candidate that the search function describes |
| Growing.ChosenIsComplete | p1/allocator.cpp:98-124 | growing fails with NoMemory iff no n bytes in a row are free or the block's own |
| Growing.ChosenIsLowest | p1/allocator.cpp:101-118 | the candidate is a whole row of available blocks, and no long enough row begins before it |
| Growing.LaterPlaceIsFirstFit | p1/allocator.cpp:103-118 | the candidate is behind the block iff no long enough row begins before; it is then the first large enough free block there |
| Growing.GrowingLosesBytes | p1/allocator.cpp:126-133 | the erasing loop loses exactly the free bytes behind the candidate row, in place or not |
| Growing.GrowingTiles | p1/allocator.cpp:126-143 | if there are none, the list still tiles the buffer |
| Growing.EmptyBlockStays | p1/allocator.cpp:143-149 | an empty free block inserted between used ones is still there after merging |
| Growing.EmptyBlockHidesNext | p1/allocator.cpp:143-149 | and the search by offset finds it instead of the used block behind it |
| Growing.MovingReplacesTheBlock | p1/allocator.cpp:126-149 | after a move and merging all bytes of the old block are free, the other used blocks are there, and n bytes are in use in place of the block's |
| Growing.MovingFreesTheOldBytes | p1/allocator.cpp:126-149 | with no free byte behind the place, a byte is free iff it was and is none of the new n, or was the block's own |
| Growing.GrowthIsRightExactly | p1/allocator.cpp:96-149 | after merging the list is in order, with a block of the new size in place of the pointer's old one, whose bytes are free, iff a condition on the list before the call holds |
| Growing.GrowingKeepsBytes | p1/allocator.cpp:146 | moved to a later place, the block's bytes are there and all other live bytes are untouched |
| Growing.GrowingInPlaceLosesTheBlock | p1/allocator.cpp:135-141 | a first block with enough free space right behind it ends up marked free |
| Growing.FirstGrowthLosesTheBlock | p1/allocator.cpp:135-141 | so does the first block ever allocated, whenever it is to grow within the buffer |
| TrieOrder.PreMissesNothing | p7/Trie.cpp:55-63 | the search below a node reaches every node whose spelling continues it |
| TrieOrder.PreIsAlphabetical | p7/Trie.cpp:55-63 | depth first with children in order visits spellings in alphabetical order |
| TrieOrder.LettersByCode | p7/Trie.cpp:128-145 | exactly the Latin letters have child numbers, which order them as the codes of their small forms do |
| TrieOrder.FoldIsLowered | p7/Trie.cpp:128-145 | to the tree a word is its small form, and it is accepted iff all its characters are Latin letters |
| TrieOrder.BeforeMeansLower | p7/Trie.cpp:55-63 | alphabetical order is by the codes at the first difference |
| TrieOrder.LettersKeepOrder | p7/Trie.cpp:128-145 | child numbers order letters as the alphabet does, upper and lower case aside |
| TrieWords.EnumerationIsUnique | p7/Trie.cpp:19-81 | a set of words has at most one alphabetical list |
| TrieWords.SearchEnumerates | p7/Trie.cpp:33-78 | the final nodes the search meets are the alphabetical list of all completions |
| TrieWords.PostIsPre | p7/Trie.cpp:92-125 | leaving nodes visits what entering them visits |
| TrieWords.TakenDownOnce | p7/Trie.cpp:83-126 | leaving order has every node once, after all its children |
| TrieGrowth.NoChildNoNode | p7/Trie.cpp:180-190 | a missing child means that no node at all spells the longer word |
| TrieGrowth.GrownIsTree | p7/Trie.cpp:164-167 | a new child keeps the tree one in which no two nodes spell the same word |
| TrieGrowth.GrownKeepsWords | p7/Trie.cpp:147-154 | a new node adds no word |
| TrieGrowth.EndedAddsWord | p7/Trie.cpp:169 | marking a node final adds just its word |
| TrieGrowth.NodeIffCompletion | p7/Trie.cpp:172-194 | after complete insertions a prefix has a node iff some word has that prefix |
| TrieGrowth.AddingKeepsProductive | p7/Trie.cpp:156-170 | inserting a word leaves no node without a word below it |
| PrefixTrie.VisitTop | p7/Trie.cpp:35-42 | marking the top node visited takes it off the work to do and puts its letter on the trail |
| PrefixTrie.WordsAreFirstTen | p7/Trie.cpp:46-53 | the words noted down are the first ten completions, each spelled as prefix and tree say |
| PrefixTrie.Trie.constructor | p7/Trie.h:41 | a tree with a root and no word |
| PrefixTrie.Trie.GetNewNode | p7/Trie.cpp:147-154 | a node without children that ends no word |
| PrefixTrie.Trie.Descend | p7/Trie.cpp:160-168 | one letter further down, with a new node only where there was none |
| PrefixTrie.Trie.AddNewWord | p7/Trie.cpp:156-170 | adds exactly the word, upper and lower case aside, or fails with no word added iff some symbol is not a letter |
| WordFile.Fgets | p7/Trie.cpp:9-10 | one line with its line break, or as much of it as fits into the buffer |
| WordFile.ReadWords | p7/Trie.cpp:9-14 | the words are the pieces read, each without its last character |
| WordFile.WordsAreCutPieces | p7/Trie.cpp:9-14 | the pieces make up the text; each ends with its first line break, has 63 characters, or ends the text |
| WordFile.LinesAreReadIffShort | p7/Trie.cpp:9-14 | the lines of a text are read as its words iff none is longer than 62 characters |
| WordFile.LastLineIsCut | p7/Trie.cpp:9-14 | of a text whose last line has no line break, all lines are read, the last without its last letter, iff no other is longer than 62 characters and it no longer than 63 |
| WordFile.LastLineIsNeverRead | p7/Trie.cpp:12 | such a text is never read as it is written |
| PrefixTrie.Trie.Load | p7/Trie.cpp:3-17 | the tree has exactly the words read, or it fails iff one of them has another symbol |
| PrefixTrie.Trie.AddAll | p7/Trie.cpp:10-14 | the words become exactly those of the list, or it fails iff one of them has another symbol |
| PrefixTrie.Trie.GetNodePrefix | p7/Trie.cpp:172-194 | finds the node of the prefix iff there is one, else says which obstacle comes first |
| PrefixTrie.Trie.PushChildren | p7/Trie.cpp:55-63 | after the loop the children are on top of the work to do, in order, and the word still fits the stack |
| PrefixTrie.Trie.LookAt | p7/Trie.cpp:38-71 | one turn at a new node keeps the search on course, with less to do, or stops it at ten words |
| PrefixTrie.FirstTenAreLowest | p7/Trie.cpp:44-63 | the first ten in alphabetical order are those lowest by the codes of their letters |
| PrefixTrie.Trie.GetWords | p7/Trie.cpp:19-81 | the first min(10, count) completions in alphabetical order |
| PrefixTrie.Complete | p7/Trie.cpp:3-81 | from file and prefix: an answer iff all words read and the prefix are Latin and a word begins with it, else the first obstacle; and it is the ten lowest such words |
| PrefixTrie.Trie.Destroy | p7/Trie.cpp:83-126 | deletes every node once, after its children; in the log of its accesses each node has its 26 child pointers read, in the order of the search, and no node is read or deleted after its deletion |
| CommandLine.ExtendReads | p4/Parser.cpp:17-55 | every further character extends the reading of a line |
| CommandLine.EveryLineReads | p4/Parser.cpp:12-61 | every line has a reading as words, operator runs, marks, quoted pieces and white space |
| CommandLine.ReadingIsUnique | p4/Parser.cpp:12-61 | and only one |
| Lexemes.CharactersByCode | p4/Parser.cpp:26-48 | which characters are white space, marks, operators, quotes |
| Lexemes.TokensCutTheLine | p4/Parser.cpp:12-61 | the tokens lie in the line one after the other with white space between them; each is a word, operators, a mark or quoted; neighbouring words or operators are one token; none are behind an unmatched quote |
| CommandParser.PrintedReadsBack | p4/Parser.cpp:12-61 | any tokens printed with single spaces are read back as they were |
| CommandParser.TokenizingIsIdempotent | p4/Parser.cpp:12-61 | tokens are well formed, and printing and parsing them again gives the same list |
| CommandParser.QuoteIsOpen | p4/Parser.cpp:19-24 | a quote is pending iff one is open when only quotes are looked at |
| CommandParser.NothingIsLost | p4/Parser.cpp:15-55 | at every character at most one accumulator is in use, and stored and pending text is the input without unquoted white space |
| CommandParser.OnlySpaceIsLost | p4/Parser.cpp:57-60 | a line loses its unquoted white space only, iff no quote is open at its end |
| CommandParser.Parser.DropStringToBuffer | p4/Parser.cpp:3-10 | stores a text iff it is not empty, and clears it |
| CommandParser.Parser.Take | p4/Parser.cpp:19-54 | one turn of the loop takes the accumulators from one reading to that with one character more |
| CommandParser.Parser.Parse | p4/Parser.cpp:12-61 | returns the tokens of the line's reading |
| CommandRunner.BuildOperands | p4/main.cpp:78-108 | commands and operators take turns, no command has an operator as a word, and no token is lost |
| CommandRunner.GroupingIsUnique | p4/main.cpp:78-108 | there is only one such list |
| CommandRunner.BlockedStays | p4/main.cpp:49-56 | what a blocking operator skips would not have been run |
| CommandRunner.SkipKeepsAt | p4/main.cpp:49-56 | after the skip the loop stands where evaluation goes on |
| CommandRunner.Skip | p4/main.cpp:52-54 | the skip ends at the first operator with another name |
| CommandRunner.Run | p4/main.cpp:33-58 | exactly the commands of left-associative short-circuit evaluation, in order, with its last status, for every way commands may end |
| CommandRunner.EvaluationRunsByOperators | p4/main.cpp:45-56 | each command is run or not by the text of the operator before it and the status of the last one run |
| CommandRunner.SplitIsUnique | p4/main.cpp:78-108 | tokens split at operators in one way only |
| CommandRunner.RunLine | p4/main.cpp:33-108 | from the line of input on: exactly the first command, those behind a pipe or an ampersand, those behind a double ampersand if the last one run exited with 0, and those behind a double bar if it did not; an empty line runs nothing |

## Left out

- Allocation.Allocator.Realloc: leaves growing a block (p1/allocator.cpp:96-147) to the module Growing, because there the code does not keep the class's invariant.
- Growing.GrowthIsRightExactly: is about values and not about the class; where the code goes on to use a block it has erased (it_block at p1/allocator.cpp:141), there is no result and growing counts as wrong.
- AllocatorRun.Client.Serve: no requests of zero bytes; a client does not write outside of its bytes, name a pointer it has not got, or grow a block; such requests leave everything as it is.
- Allocation.Allocator.Alloc: requests of zero bytes are excluded, because after one the search by offset no longer finds every block (BlockList.ZeroBytesHideTheNext); so are stale or twice freed pointers in Free and Realloc. `std::list` erasure is plain removal from a sequence.
- AllocatorRun.Client.Alloc: no requests of zero bytes, for the same reason.
- AllocatorRun.Client.ReallocNull: no requests of zero bytes, likewise.
- AllocatorRun.Client.Shrink: no cut to zero bytes, likewise.
- AllocatorRun.Client.Run: no requests of zero bytes, likewise; the blocks in the history are tied to the texts by their total length, not one by one.
- Linearization.RepliesAreSequential: is for one locked section; for two of them it is false (SectionRace.FreeListRace), and sections without a semaphore are not exclusive (Workers.ExclusionExactly).
- Cleaning.Clean: without the semaphore calls around each section; p6's semaphores are taken and given back the wrong way round (p6/Worker.h:38-48), so no exclusion between p6 processes is claimed.
- PrefixTrie.Trie.GetWords: an empty prefix is excluded, as removing the last letter of an empty string is undefined.
- PrefixTrie.Trie.Load: opening and closing the file, and zero characters in it; its words are all read before the first is added.
- CommandRunner.Run: says which commands are run one after the other; to the loop `|` and `&` merely separate commands. Pipe descriptors, the forked background shell, redirection, signals and exec are not modelled.
- CommandRunner.RunLine: stops at grouping and running; connecting pipes and forking for a trailing `&` (p4/main.cpp:110-136) are not modelled.
- CommandRunner.BuildOperands: the branch for `;` is never reached, since `;` is not an operator there, and is not modelled.
- Pointers between trie nodes are numbers of nodes in a pool, and deleting is noting the number; the two `std::stack`s are list values.
- std::hash of an int is taken to be the identity on 64 bits, as in libstdc++.
- Integers are unbounded: no overflow of `l_border + r_border` in merge sort or of death times; the variable-length array in merge is an array.
- p5/HashTable.cpp is modelled as a step machine, one shared access per step, and not as a class a second time; the class is p6's, whose relinking code is the same.
- Sockets, message queues, process start, epoll and asio servers, dump and log output (p2, p3 and the servers of p5, p6, p7).
- p10 and p11: library calls and floating point.
- p2's message format, and p3's parser, which reads lines of the form key = value from its configuration file.
- Progress.LeavesInTime: bounds the stay inside a locked section, not the wait for it, which has no bound (Starvation.WriterMayStarve).
