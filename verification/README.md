# Verified models of seven service-library components

This project models the parts of the Nanostack event and service library that carry the most state and
arithmetic, and proves what they promise. Code that changes memory step by step is modelled as methods over
mutable memory, loops included, and each method is proved to compute a function of the old state; what the
source promises is then proved about those functions, for every input and for every run.

* **Boundary-tag heap** (`Heap`, `HeapModel`, `HeapMemory`, `HeapBlocks`). `Heap.Book` keeps tags, hole
  descriptors and the intrusive hole list in one flat word memory and writes them in place. Every operation
  refines a function on abstract states (regions tiled by blocks); the invariant, the placement policy, the
  exact success condition and conservation of memory are proved over all legal runs of that function. A
  payload of a live block is never written by any operation on another block.
* **Intrusive list** (`NsList`). The pointer-to-slot list of `ns_list.h` in a flat memory: each insertion,
  removal, replacement and concatenation computes the matching sequence operation.
* **NVM request machine** (`NvmModel`, `NvmDrain`, `NvmOverlap`, `NvmHelper`). A transition system with its whole
  history, the drain loop with its recursion for any answers of the platform, the histories in which several
  operations are outstanding, and the request objects, flags and list that implement them. Callbacks are re-entrant.
* **IPv6 text** (`Ip6Text`, `Ip6Grammar`, `Ip6Forms`, `Ip6Parse`, `Ip6Print`, `Ip6Prefix`). The parser accepts
  exactly a declarative grammar, in it every text of forms 1 and 2 of section 2.2 of RFC 4291; the printer writes the
  canonical form of RFC 5952, and the two are inverse.
* **Bit strings** (`Bits`). Copying and comparing bit by bit, as the prefix functions need it.
* **Internet checksum** (`Checksum`). The gather-list fold equals the one's-complement sum, with the exact
  condition for the 32-bit accumulator and on the length.
* **Allocation tracker** (`Tracker`, `TrackerModel`, `TrackerSnapshot`). Two tables whose per-caller accounts
  equal the counts and sums over the live blocks after any run.

What the models found in the code:

* A prefix length of 100 to 128 is printed but can never be read back; the header promises lengths up to 128
  (`Ip6Prefix.PrefixRoundTrip`, `Ip6Prefix.AcceptedLengths`).
* `stoip6` accepts every text of forms 1 and 2 of section 2.2 of RFC 4291 (`Ip6Forms.FormAccepted`), and its limit of
  39 characters refuses none of them (`Ip6Forms.FormLength`), but it refuses what is otherwise accepted at 40 and 41
  characters, lengths that its header allows (`Ip6Forms.WideTexts`). It also accepts texts of neither form: exactly
  those that start or end with a single colon, have three colons in a row, or have a "::" beside eight groups
  (`Ip6Forms.WellWrittenIff`; such texts: `Ip6Forms.LeadingColonAccepted`, `Ip6Forms.TrailingColonAccepted`,
  `Ip6Forms.ThreeColonsAccepted`, `Ip6Forms.IdleGapAccepted`).
* An accepted NVM request is forgotten, without a callback, exactly if the platform refuses to go on from inside its
  own callback (`NvmModel.KeptInTheEnd`). After the initialization such a refusal drops the request
  (`NvmModel.DroppedIffRefused`, `NvmModel.RefusedAfterInit`), and the order of callbacks is lost exactly if others
  are waiting then (`NvmModel.CalledInOrder`). Between two stages of a request it stops the machine for good
  (`NvmModel.StuckIffRefused`, `NvmModel.StuckForever`, `NvmModel.WriteGetsStuck`).
* A refusal to start a pending request is survived exactly if it is the last one pending and its client's calls
  start nothing; calls that are rejected do no harm (`NvmDrain.RefusalsExact`). If two or more are pending at a
  refusal, the loop goes on from an entry that has been removed and poisoned (`NvmDrain.FaultIffOvertaken`,
  `NvmDrain.ThreeReadsFault`). In every other case it returns with the progress flag cleared beside an outstanding
  operation or with at least two operations outstanding (`NvmDrain.RefusalsExact`, `NvmDrain.UnsoundCases`;
  `NvmDrain.RetryClearsFlag`, `NvmDrain.RetriesStartTwo`). Even then no client is told twice and none is forgotten
  for that reason (`NvmOverlap.AtMostOnceAlways`, `NvmOverlap.ExactlyOnceAtRest`).
* A growth callback of the tracker that answers NULL takes the old table with it: without the second table exactly
  the blocks in it can no longer be freed, while their callers stay charged (`TrackerModel.ExtTableLost`); without
  the first every free returns 0 and does nothing, and the last index can exceed a later table
  (`TrackerModel.MemTableLost`).
* Freeing a tracked block through the second table tidies slot 0 instead of the caller's slot, so other slots
  stay occupied with no reference (`TrackerModel.SlotGivenUp`, `TrackerModel.SlotLeftBehind`).
* With a snapshot list of more than 256 entries an insertion moves only part of the list and overwrites an entry,
  so that a caller can be missing although there is room for all (`TrackerSnapshot.LongListForgets`,
  `TrackerSnapshot.ForgottenReached`); up to 256 the snapshot is right for every table (`TrackerSnapshot.SnapshotIff`).
* 131075 bytes can overflow the checksum accumulator; 131074 never do (`Checksum.LengthLimitIsTight`).

## Model

| member | source | states |
|---|---|---|
| NsList.Init | mbed-client-libservice/ns_list.h:608-612 | the head becomes an empty list; only its two words change |
| NsList.AddToStart | mbed-client-libservice/ns_list.h:622-636 | the list spells the entry followed by the old sequence, and exactly the four linking words have changed |
| NsList.AddAfter | mbed-client-libservice/ns_list.h:638-652 | the entry stands right behind its predecessor, also at the end, where the head's last slot moves |
| NsList.AddBefore | mbed-client-libservice/ns_list.h:654-662 | the entry stands right in front of its successor, found through that entry's slot alone |
| NsList.AddToEnd | mbed-client-libservice/ns_list.h:664-672 | the entry is appended through the last slot |
| NsList.InsertIsList | mbed-client-libservice/ns_list.h:622-672 | any memory that differs by the insertion writes is a consistent list of the sequence with the entry inserted |
| NsList.Remove | mbed-client-libservice/ns_list.h:707-722 | the sequence without the entry remains, the entry's link is poisoned, nothing else changes |
| NsList.RemoveIsList | mbed-client-libservice/ns_list.h:707-722 | any memory that differs by the removal writes is a consistent list of the shorter sequence |
| NsList.Replace | mbed-client-libservice/ns_list.h:724-740 | the replacement takes the entry's position; the old link is poisoned |
| NsList.ReplaceIsList | mbed-client-libservice/ns_list.h:724-740 | any memory that differs by the replacement writes is a consistent list with that position updated |
| NsList.Concatenate | mbed-client-libservice/ns_list.h:742-756 | the destination spells both sequences in order and the source becomes empty |
| NsList.ConcatIsList | mbed-client-libservice/ns_list.h:742-756 | moving the whole source behind the last slot gives a consistent list of the concatenation |
| NsList.GetNext | mbed-client-libservice/ns_list.h:674-677 | the successor in the sequence, NULL at the end |
| NsList.GetFirst | mbed-client-libservice/ns_list.h:408-408 | the first entry, NULL for an empty list |
| NsList.GetPrevious | mbed-client-libservice/ns_list.h:679-695 | the predecessor in the sequence, computed from the slot; NULL for the first entry |
| NsList.GetLast | mbed-client-libservice/ns_list.h:697-705 | the last entry, computed from the last slot; NULL for an empty list |
| NsList.Count | mbed-client-libservice/ns_list.h:758-767 | terminates with the length of the sequence |
| NsList.Foreach | mbed-client-libservice/ns_list.h:517-519 | visits the sequence in order |
| NsList.ForeachReverse | mbed-client-libservice/ns_list.h:547-549 | visits the reverse of the sequence |
| NsList.ReversedSnoc | mbed-client-libservice/ns_list.h:542-549 | reversing turns appending into prepending |
| NsList.ForeachSafe | mbed-client-libservice/ns_list.h:538-540 | visits every entry once although any of them may be removed on the way; what was not removed remains, in order |
| HeapBlocks.SpliceTiled | source/nsdynmemLIB/nsdynmemLIB.c:411-444 | replacing a run of blocks by blocks over the same words keeps every region exactly tiled |
| HeapBlocks.SpliceCoalesced | source/nsdynmemLIB/nsdynmemLIB.c:520-548 | and keeps neighbouring free blocks apart if its ends do |
| HeapBlocks.HoleIndexMonotone | source/nsdynmemLIB/nsdynmemLIB.c:387-404 | the hole list is in address order |
| HeapModel.WalkFindsFit | source/nsdynmemLIB/nsdynmemLIB.c:386-404 | a walk from either end that stops at a hole has found the lowest (temporary) or highest fitting block |
| HeapModel.WalkFindsNone | source/nsdynmemLIB/nsdynmemLIB.c:386-408 | a walk that passes every hole means that no block fits |
| HeapModel.AllocKeepsInv | source/nsdynmemLIB/nsdynmemLIB.c:360-468 | every allocation, split or whole or refused, keeps the tiling, the statistics and the separation of free blocks |
| HeapModel.AllocSucceeds | source/nsdynmemLIB/nsdynmemLIB.c:369-408 | allocation succeeds exactly when n >= 1, the temporary limit is not exceeded, and some free block holds both n bytes and a descriptor |
| HeapModel.AllocPlacement | source/nsdynmemLIB/nsdynmemLIB.c:386-444 | a temporary block lies at the bottom of the lowest fitting hole, any other at the top of the highest, with fewer than 2 + HOLE_T_SIZE surplus words; a refusal changes only the failure count |
| HeapModel.LiveAfterAlloc | source/nsdynmemLIB/nsdynmemLIB.c:411-444 | a successful allocation adds exactly one live block, new and at the returned address; every other live block stays |
| HeapModel.FreeKeepsInv | source/nsdynmemLIB/nsdynmemLIB.c:491-588 | every free keeps the invariant, in all neighbour cases and never across a region border |
| HeapModel.LiveAfterFree | source/nsdynmemLIB/nsdynmemLIB.c:515-587 | a free takes away exactly the live block it names; every other live block stays |
| HeapModel.FreeReports | source/nsdynmemLIB/nsdynmemLIB.c:601-636 | a free reports a double free exactly for the data of a free block, an invalid pointer exactly where no block has its data, nothing for NULL; each of them changes nothing |
| HeapModel.FreeUndoesAlloc | source/nsdynmemLIB/nsdynmemLIB.c:411-444 | freeing what was just allocated restores the very same blocks, allocated bytes and count |
| HeapModel.AllFree | source/nsdynmemLIB/nsdynmemLIB.c:515-588 | once nothing is live each region is again one single free block |
| HeapModel.AddRegionKeepsInv | source/nsdynmemLIB/nsdynmemLIB.c:184-255 | a new region becomes one hole in its place and the invariant is kept |
| HeapModel.LiveAfterAdd | source/nsdynmemLIB/nsdynmemLIB.c:207-247 | adding a region changes no live block |
| HeapModel.AddRegionAnswers | source/nsdynmemLIB/nsdynmemLIB.c:184-243 | the return codes 0, -1, -2 and -3 exactly in their cases, and no change for an error |
| HeapModel.RunKeepsInv | source/nsdynmemLIB/nsdynmemLIB.c:184-636 | the invariant holds after any legal run of region additions, allocations and frees |
| HeapModel.MaximumIsPeak | source/nsdynmemLIB/nsdynmemLIB.c:312-318 | the recorded maximum is the peak of the allocated bytes over the run |
| HeapModel.CountsSinceInit | source/nsdynmemLIB/nsdynmemLIB.c:307-329 | from initialization on, the failure count is the number of allocations that returned NULL, and the running total the bytes, tags included, of all blocks handed out, both modulo 2^32 |
| HeapModel.LimitSinceInit | source/nsdynmemLIB/nsdynmemLIB.c:176-245 | in every reachable state the limit for temporary blocks is 95 percent of the whole hundreds of bytes of the heap |
| HeapModel.TemporaryShare | source/nsdynmemLIB/nsdynmemLIB.c:369-375 | in every reachable state a temporary request that fits some hole is refused exactly if more than that share of the heap is allocated |
| HeapModel.Conservation | source/nsdynmemLIB/nsdynmemLIB.c:308-329 | live plus free words are the words of all regions, and the byte statistics are those of the live words |
| HeapModel.InitialInv | source/nsdynmemLIB/nsdynmemLIB.c:155-176 | the state after initialization satisfies the invariant |
| HeapModel.Reachable | source/nsdynmemLIB/nsdynmemLIB.c:129-636 | from initialization on, every legal history keeps the invariant and the peak |
| HeapModel.PayloadIsPrivate | source/nsdynmemLIB/nsdynmemLIB.c:343-345 | a word of a live payload lies in no other block, in no tag and in no hole descriptor |
| HeapModel.HolesAscend | source/nsdynmemLIB/nsdynmemLIB.c:215-237 | hole descriptors are in strictly ascending order and do not overlap |
| HeapModel.HolesAreTheHoles | source/nsdynmemLIB/nsdynmemLIB.c:550-585 | an address is in the hole list exactly if it is the data of a free block of at least HOLE_T_SIZE words |
| HeapMemory.OthersProtected | source/nsdynmemLIB/nsdynmemLIB.c:411-444 | tags and payloads outside the changed blocks are words that a quiet operation leaves alone |
| HeapMemory.CarveHoles | source/nsdynmemLIB/nsdynmemLIB.c:413-442 | the hole list after carving a block: the descriptor moves, stays or goes |
| HeapMemory.MergeHolesAbove | source/nsdynmemLIB/nsdynmemLIB.c:550-585 | the hole list after merging with a listed block above |
| HeapMemory.MergeHolesAlone | source/nsdynmemLIB/nsdynmemLIB.c:564-585 | the hole list after freeing with no listed block above, small neighbours included |
| Heap.Book.constructor | source/nsdynmemLIB/nsdynmemLIB.c:129-182 | initialization writes the first hole's tags and descriptor and yields the initial state |
| Heap.Book.RegionFind | source/nsdynmemLIB/nsdynmemLIB.c:77-91 | the slot of the region that holds the block, or -1 |
| Heap.Book.BlockValidate | source/nsdynmemLIB/nsdynmemLIB.c:346-356 | true exactly if both tags of some non-empty block are at the address; a block whose first tag is intact, as for every block of the tiling, validates exactly if its last tag is intact too |
| Heap.Book.Examine | source/nsdynmemLIB/nsdynmemLIB.c:390-403 | no hole of a valid heap is taken for corrupted, and it fits exactly if it has the words |
| Heap.Book.ConvertAllocationSize | source/nsdynmemLIB/nsdynmemLIB.c:331-341 | the words for a request, with the size failure reported exactly outside 1 .. heap size - 2 words |
| Heap.Book.FindHole | source/nsdynmemLIB/nsdynmemLIB.c:386-404 | the list walk ends at the block that the abstract search chooses |
| Heap.Book.SplitHole | source/nsdynmemLIB/nsdynmemLIB.c:413-437 | the remaining hole gets its tags and its place in the list, at either end |
| Heap.Book.CarveHole | source/nsdynmemLIB/nsdynmemLIB.c:412-444 | the chosen hole becomes a live block, split or whole, in memory as in the model |
| Heap.Book.InternalAlloc | source/nsdynmemLIB/nsdynmemLIB.c:360-468 | memory, list, statistics and result are those of the abstract allocation; no other live payload changes |
| Heap.Book.MergeBelow | source/nsdynmemLIB/nsdynmemLIB.c:520-533 | the block below is merged exactly if it is free and in the same region |
| Heap.Book.MergeAbove | source/nsdynmemLIB/nsdynmemLIB.c:535-548 | the block above is merged exactly if it is free and in the same region |
| Heap.Book.JoinNeighbours | source/nsdynmemLIB/nsdynmemLIB.c:520-585 | all neighbour cases leave the hole list of the merged tiling |
| Heap.Book.FreeAndMerge | source/nsdynmemLIB/nsdynmemLIB.c:491-588 | tags and list become those of the merged tiling |
| Heap.Book.Free | source/nsdynmemLIB/nsdynmemLIB.c:601-636 | state and reported failure are those of the abstract free; every other live payload is untouched |
| HeapMemory.PayloadKeepsStored | source/nsdynmemLIB/nsdynmemLIB.c:343-345 | writing any word inside a live block keeps every tag and the hole list |
| Heap.Book.ClientWrite | source/nsdynmemLIB/nsdynmemLIB.c:343-345 | a client may write any word of its block: the book stays valid and its state the same |
| Heap.Book.RegionSave | source/nsdynmemLIB/nsdynmemLIB.c:93-104 | the region goes to the first unused slot, or the table is full |
| Heap.Book.FindPlace | source/nsdynmemLIB/nsdynmemLIB.c:215-225 | the hole list position of the new region, or that it is already listed |
| Heap.Book.RegionAdd | source/nsdynmemLIB/nsdynmemLIB.c:184-255 | state and return code are those of the abstract operation; no live payload changes |
| NvmModel.AtMostOnce | source/nvmHelper/ns_nvm_helper.c:60-100 | in every history no call has two callbacks, a call that returned an error has none, and each callback reports the first bad status of its plan of operations |
| NvmModel.ToldTheOutcome | source/nvmHelper/ns_nvm_helper.c:60-99 | in every history each client is told NS_NVM_OK, NS_NVM_DATA_NOT_FOUND or NS_NVM_ERROR exactly if the platform last reported success, a missing key, or an error (or took no request); a read is one operation, a write creates, writes and flushes, a delete deletes and flushes, in that order |
| NvmModel.CallReturns | source/nvmHelper/ns_nvm_helper.c:102-180 | an entry point returns NS_NVM_ERROR for a missing pointer or a refused start, NS_NVM_MEMORY if a request cannot be allocated, and NS_NVM_OK exactly for what is accepted |
| NvmModel.ExactlyOnceWhenIdle | source/nvmHelper/ns_nvm_helper.c:60-228 | at rest, every call that returned OK has had exactly one callback and every other none, if and only if no completion of the initialization in the history was followed by a refusal |
| NvmModel.CalledInTurn | source/nvmHelper/ns_nvm_helper.c:212-228 | in every history the callbacks come in acceptance order, but for the call after a drop, which goes before those left waiting |
| NvmModel.CalledInOrder | source/nvmHelper/ns_nvm_helper.c:212-228 | callbacks come in the order of the calls if and only if the platform never refuses the request after initialization while others wait, or there is at most one callback yet |
| NvmModel.DropsOnlyAfterInit | source/nvmHelper/ns_nvm_helper.c:71-75 | a step drops a request exactly when the platform refuses it after initialization, and that request only |
| NvmModel.DroppedIffRefused | source/nvmHelper/ns_nvm_helper.c:71-75 | over a run: something has been dropped exactly if some event was such a refusal, and others lost their place exactly if some were waiting then |
| NvmModel.RefusedAfterInit | source/nvmHelper/ns_nvm_helper.c:182-210 | a concrete history in which such a refusal breaks both the promise and the order |
| NvmModel.StuckIffRefused | source/nvmHelper/ns_nvm_helper.c:80-96 | over a run: the machine is stuck exactly if the platform has refused to go on from one stage of a request to the next |
| NvmModel.StuckForever | source/nvmHelper/ns_nvm_helper.c:80-96 | once stuck, no later event changes what is in progress or tells any client anything |
| NvmModel.WriteGetsStuck | source/nvmHelper/ns_nvm_helper.c:80-87 | a history in which a write is accepted, its data is refused after the key has been created, and no later history ever tells its client |
| NvmModel.KeptInTheEnd | source/nvmHelper/ns_nvm_helper.c:60-228 | for every history: some further answers of the platform lead to exactly one callback for every call that returned OK and none for the others, if and only if the platform has never refused to go on, neither after the initialization nor between two stages |
| NvmModel.RunKeepsInv | source/nvmHelper/ns_nvm_helper.c:60-228 | over every run: one operation outstanding at most, the flag says whether, requests wait only while something is in progress or a drop has just left them, each accepted and not dropped request is in exactly one place and in order of turns, operations on plan |
| NvmModel.CompletionProgress | source/nvmHelper/ns_nvm_helper.c:60-100 | each platform callback lowers the remaining work, but for calls made from the client's callback |
| NvmModel.DrainServesAll | source/nvmHelper/ns_nvm_helper.c:212-228 | if the platform keeps answering, every accepted call is served within the remaining work |
| NvmDrain.LoopFollows | source/nvmHelper/ns_nvm_helper.c:218-227 | whatever is refused, an entry the loop has worked on is not in the list any more, only new requests enter it, and what the platform has accepted stays outstanding |
| NvmDrain.FaultIffOvertaken | source/nvmHelper/ns_nvm_helper.c:218-227 | the loop comes upon a removed entry exactly if at some refusal at least two requests are pending, counting those added by the clients of the requests refused before |
| NvmDrain.SoundIffHarmless | source/nvmHelper/ns_nvm_helper.c:212-228 | no removed entry is read, at most one operation is outstanding and the flag says whether, if and only if nothing is refused or the one refused is the last pending and its client's calls start nothing |
| NvmDrain.RefusalsExact | source/nvmHelper/ns_nvm_helper.c:212-228 | in every reachable state the loop ends soundly exactly for the completions that the state machine allows, and then in the state machine's next state; otherwise it reads a removed entry, exactly if two requests are pending at some refusal, or leaves the flag cleared beside an outstanding operation, or at least two operations |
| NvmDrain.UnsoundCases | source/nvmHelper/ns_nvm_helper.c:212-228 | the same dichotomy for the loop alone, from any list of pending requests |
| NvmDrain.ApiReturns | source/nvmHelper/ns_nvm_helper.c:102-180 | the same return values with any number of operations outstanding |
| NvmDrain.ThreeReadsFault | source/nvmHelper/ns_nvm_helper.c:218-223 | a history of three reads in which one refusal makes the loop read a removed entry |
| NvmDrain.RetryClearsFlag | source/nvmHelper/ns_nvm_helper.c:214-216 | a history of two reads in which a retry from the callback leaves an operation outstanding with the flag cleared |
| NvmDrain.RetriesStartTwo | source/nvmHelper/ns_nvm_helper.c:214-221 | a history of two reads in which two retries leave two operations outstanding |
| NvmOverlap.AtMostOnceAlways | source/nvmHelper/ns_nvm_helper.c:60-228 | in every history in which no removed entry is read, with any refusals and any number of operations outstanding that complete in any order: no call has two callbacks, one that returned an error has none, each callback reports the outcome of its plan, and an accepted request is untold exactly while it is outstanding, pending or lost |
| NvmOverlap.ToldTheOutcomeAlways | source/nvmHelper/ns_nvm_helper.c:60-99 | what clients are told and the order of the stages, as in `NvmModel.ToldTheOutcome`, in every such history |
| NvmOverlap.LostIffRefused | source/nvmHelper/ns_nvm_helper.c:60-100 | a request is lost exactly if the platform refuses to go on from inside its own callback |
| NvmOverlap.ExactlyOnceAtRest | source/nvmHelper/ns_nvm_helper.c:60-228 | in every such history, once nothing is outstanding, each accepted call has had exactly one callback and no other any, if and only if there has been no such refusal |
| NvmOverlap.RunIsHistory | source/nvmHelper/ns_nvm_helper.c:60-228 | every legal run of the state machine is one of these histories, with the same outcome |
| NvmHelper.Helper.OperationContinue | source/nvmHelper/ns_nvm_helper.c:182-210 | the first operation of the plan is started, or the request is freed if asked and the flag cleared |
| NvmHelper.Helper.OperationStart | source/nvmHelper/ns_nvm_helper.c:129-164 | the return value and the new abstract state in each of the six cases |
| NvmHelper.Helper.KeyDelete | source/nvmHelper/ns_nvm_helper.c:102-109 | refines the abstract call and keeps the invariant |
| NvmHelper.Helper.DataRead | source/nvmHelper/ns_nvm_helper.c:111-118 | refines the abstract call and keeps the invariant |
| NvmHelper.Helper.DataWrite | source/nvmHelper/ns_nvm_helper.c:120-127 | refines the abstract call and keeps the invariant |
| NvmHelper.Helper.OperationEnd | source/nvmHelper/ns_nvm_helper.c:212-228 | the client is told, its re-entrant calls are taken, the request is freed and the next one started or, if refused, ended in turn: exactly the abstract end, for every harmless series of refusals |
| NvmHelper.Helper.ProcessPending | source/nvmHelper/ns_nvm_helper.c:218-227 | the loop with its saved next entry and its recursion leaves the abstract next turn |
| NvmHelper.Helper.CallbackFunc | source/nvmHelper/ns_nvm_helper.c:60-100 | refines the abstract completion for every operation and status and keeps the invariant |
| NvmHelper.Helper.NothingLeaks | source/nvmHelper/ns_nvm_helper.c:196-207 | at rest with nothing dropped all request memory has been given back |
| Ip6Text.IsHexIsHexDigit | source/libip6string/stoip6.c:150-162 | the masked range test accepts hexadecimal digits of either case and nothing else |
| Ip6Text.HexTextCanonical | source/libip6string/ip6tos.c:85-85 | the printed field has at most four lower-case digits, no leading zero, and stands for its value |
| Ip6Text.DigitWorth | source/libip6string/stoip6.c:164-181 | a digit of either case is worth its place in 0123456789abcdef |
| Ip6Text.NetworkOrder | mbed-client-libservice/common_functions.h:464-469 | the high byte of each field comes first |
| Ip6Text.FieldsOfBytesOf | source/libip6string/stoip6.c:64-66 | fields written big-endian are read back |
| Ip6Text.BytesOfFieldsOf | source/libip6string/ip6tos.c:81-82 | bytes combined into fields are the bytes of those fields |
| Ip6Grammar.ParseMeansSpelled | source/libip6string/stoip6.c:34-102 | a text is accepted exactly if it has at most 39 characters and is spelled by at most eight fields of at most four digits with at most one "::", and the result is what the spelling stands for |
| Ip6Grammar.ParseIgnoresCase | source/libip6string/stoip6.c:150-181 | every text means the same in lower case, accepted or not |
| Ip6Grammar.ScanComplete | source/libip6string/stoip6.c:48-82 | every spelling is read as its fields and the position of its "::" |
| Ip6Grammar.ScanSound | source/libip6string/stoip6.c:48-82 | whatever the loop accepts has a spelling |
| Ip6Forms.FormAccepted | source/libip6string/stoip6.c:34-102 | eight groups, or groups left and right of a "::" with at most seven in all, of one to four digits each, are accepted and read as the address that section 2.2 of RFC 4291 gives them |
| Ip6Forms.FormLength | source/libip6string/stoip6.c:42-44 | no such text is longer than 39 characters |
| Ip6Forms.WellWrittenIff | source/libip6string/stoip6.c:48-101 | an accepted text is such a text if and only if it neither starts nor ends with a single colon, has no three colons in a row, and no "::" beside eight groups |
| Ip6Forms.ThreeColonsAccepted | source/libip6string/stoip6.c:68-81 | ":::" is accepted as the zero address |
| Ip6Forms.TrailingColonAccepted | source/libip6string/stoip6.c:68-81 | eight groups and a single colon are accepted, up to 39 characters |
| Ip6Forms.LeadingColonAccepted | source/libip6string/stoip6.c:50-66 | a single colon before seven groups is accepted and reads as a zero field |
| Ip6Forms.IdleGapAccepted | source/libip6string/stoip6.c:84-101 | eight groups with a "::" between or behind them are accepted, up to 39 characters, and the "::" stands for nothing |
| Ip6Forms.WideTexts | source/libip6string/stoip6.c:42-44 | eight groups of four digits are accepted with 39 characters; with one or two colons behind them, which is accepted of shorter groups, they are refused |
| Ip6Parse.Hex | source/libip6string/stoip6.c:164-181 | the value of the digits up to the first other character, modulo 2^16 |
| Ip6Parse.SeekColon | source/libip6string/stoip6.c:50-54 | stops at the next colon or the end, or reports a character that is neither |
| Ip6Parse.ReadPart | source/libip6string/stoip6.c:50-66 | reads and writes one field exactly if it is well formed and there is room |
| Ip6Parse.SkipColons | source/libip6string/stoip6.c:68-81 | steps over one or two colons and refuses a second "::" |
| Ip6Parse.InsertZeros | source/libip6string/stoip6.c:84-91 | the in-place move and fill give the fields with the missing zeros at the "::" |
| Ip6Parse.Stoip6 | source/libip6string/stoip6.c:34-102 | succeeds exactly when the text parses; the sixteen bytes are then the address and otherwise zeros; nothing behind them is written |
| Ip6Print.LongestIsChosen | source/libip6string/ip6tos.c:36-66 | the pre-scan finds the leftmost longest run of at least two zero fields, or that there is none |
| Ip6Print.FindZeros | source/libip6string/ip6tos.c:32-66 | the nested loops compute that run |
| Ip6Print.PrintCanonical | source/libip6string/ip6tos.c:68-97 | the output shortens the chosen run, of which there is exactly one, has "::" exactly if two adjacent fields are zero, is lower case and at most 39 characters long |
| Ip6Print.PrintForm | source/libip6string/ip6tos.c:68-97 | the printed text is of one of the two forms and stands for the address |
| Ip6Print.Ip6tos | source/libip6string/ip6tos.c:29-101 | writes exactly that text and a NUL within 40 characters and returns its length; the rest of the buffer is untouched |
| Ip6Print.PrintParse | source/libip6string/ip6tos.c:68-97 | for every address, parsing the printed text gives the address back |
| Ip6Print.AddressRoundTrip | source/libip6string/stoip6.c:34-102 | the same for all sixteen bytes |
| Ip6Print.PrintInjective | source/libip6string/ip6tos.c:68-97 | different addresses print differently |
| Ip6Print.ReprintIdempotent | source/libip6string/stoip6.c:34-102 | printing what was parsed is stable |
| Ip6Print.LongestRunExample | source/libip6string/ip6tos.c:29-101 | 2001:0:0:1::1, from section 4.2.3 of RFC 5952 |
| Ip6Print.FirstRunExample | source/libip6string/ip6tos.c:29-101 | 2001:db8::1:0:0:1, from the same section, and that its upper-case text is read as the same address |
| Ip6Prefix.PrefixAddressIsPrefix | source/libip6string/ip6tos.c:106-113 | the printed address equals the prefix on its bits and is zero beyond |
| Ip6Prefix.Ip6PrefixTos | source/libip6string/ip6tos.c:103-120 | writes the prefix text within 44 characters; lengths over 128 write nothing and give 0 |
| Ip6Prefix.Stoip6Prefix | source/libip6string/stoip6.c:113-148 | return value, stored length and destination in every case, with and without a place for the length |
| Ip6Prefix.PrefixRoundTrip | source/libip6string/stoip6.c:124-139 | every printed prefix is read back with its length if the length is at most 99, and refused from 100 to 128 |
| Ip6Prefix.AcceptedLengths | source/libip6string/stoip6.c:127-135 | no text yields a length above 99 |
| Ip6Prefix.LengthPart | source/libip6string/stoip6.c:132-132 | what a length part of at most two characters is read as: digits, or one digit behind white space or a sign, and zero for anything else |
| Ip6Prefix.LengthRefusedIff | source/libip6string/stoip6.c:127-136 | a length part is refused exactly if it has three characters or more or is a negative digit |
| Bits.MaskTable | source/libBits/common_functions.c:29-32 | the mask has exactly the top `split` bits |
| Bits.BitsequalComparesBits | source/libBits/common_functions.c:34-51 | true exactly if the first `bits` bits agree one by one |
| Bits.Bitcopy | source/libBits/common_functions.c:53-69 | the first `bits` bits are copied and every other bit of the destination stays |
| Bits.Bitcopy0 | source/libBits/common_functions.c:71-87 | the first `bits` bits are copied, the rest of the last byte is cleared, later bytes stay |
| Checksum.OnesSumIsNorm | source/IPv6_fcf_lib/ip_fsc.c:55-60 | the one's-complement sum is the plain sum modulo 0xFFFF, zero only for zero |
| Checksum.OnesSumDetermined | source/IPv6_fcf_lib/ip_fsc.c:55-60 | the one's-complement sum differs from the plain sum by a multiple of 0xFFFF and is 0 only if all bytes are |
| Checksum.Rfc1071Example | source/IPv6_fcf_lib/ip_fsc.c:30-61 | the numerical example of section 3 of RFC 1071 |
| Checksum.TwoFolds | source/IPv6_fcf_lib/ip_fsc.c:55-60 | two folds of any 32-bit accumulator give a 16-bit sum congruent to it |
| Checksum.FcfIsComplement | source/IPv6_fcf_lib/ip_fsc.c:30-61 | the result is the complement of the one's-complement sum if and only if the 32-bit sum has not wrapped, or has wrapped a multiple of 0xFFFF times without ending at zero |
| Checksum.LengthSuffices | source/IPv6_fcf_lib/ip_fsc.c:26-29 | up to 131074 bytes the accumulator cannot overflow and the result is right |
| Checksum.LengthLimitIsTight | source/IPv6_fcf_lib/ip_fsc.c:26-29 | the result is right for all byte strings of at most n bytes if and only if n is at most 131074 |
| Checksum.OneByteMore | source/IPv6_fcf_lib/ip_fsc.c:26-29 | for 131075 bytes of 0xFF it is wrong |
| Checksum.AddFragment | source/IPv6_fcf_lib/ip_fsc.c:35-50 | one fragment adds its bytes, with the odd byte carried across fragments |
| Checksum.IpFcfV | source/IPv6_fcf_lib/ip_fsc.c:30-61 | the result depends only on the concatenated bytes |
| Checksum.SplitFragment | source/IPv6_fcf_lib/ip_fsc.c:34-53 | splitting a fragment at any place, odd or empty, changes nothing |
| Checksum.HeadersAgree | source/IPv6_fcf_lib/ip_fsc.c:81-88 | the 36-byte header sums to the same as the 40-byte pseudo-header of section 8.1 of RFC 2460 |
| Checksum.PseudoHeaderSum | source/IPv6_fcf_lib/ip_fsc.c:81-88 | it adds the words of both addresses, the length and the next header |
| Checksum.Ipv6Fcf | source/IPv6_fcf_lib/ip_fsc.c:78-91 | for any data length the result is the checksum over the pseudo-header and the data |
| Checksum.DatagramCheck | source/IPv6_fcf_lib/ip_fsc.c:67-76 | a stored checksum checks to 0 exactly if it is the computed one, or 0xFFFF where that is 0x0000 |
| Checksum.CheckAccepts | source/IPv6_fcf_lib/ip_fsc.c:67-76 | the same for any bytes and any even offset |
| TrackerModel.AllocKeeps | source/nsdynmemtracker/nsdynmem_tracker_lib.c:34-128 | alloc tracks the block exactly when it returns 0, and keeps the accounting unless a growth callback takes a table away |
| TrackerModel.AllocSucceeds | source/nsdynmemtracker/nsdynmem_tracker_lib.c:43-106 | alloc returns 0 for a block exactly if the table it needs has, or grows, a free place |
| TrackerModel.AllocSlots | source/nsdynmemtracker/nsdynmem_tracker_lib.c:84-125 | after a tracked call the caller's slot has lifetime 0; one it had keeps its own block and line, a new one holds the block and the line; no other slot changes and new ones are empty |
| TrackerModel.FreeFinds | source/nsdynmemtracker/nsdynmem_tracker_lib.c:130-223 | every tracked block is found, and exactly its record goes |
| TrackerModel.FreeOwnSlots | source/nsdynmemtracker/nsdynmem_tracker_lib.c:141-172 | a slot whose own block is freed is empty exactly if that was the caller's last block, and otherwise keeps caller, line and the account of what is left; nothing else changes but the total |
| TrackerModel.FreeExtSlots | source/nsdynmemtracker/nsdynmem_tracker_lib.c:187-220 | a block of the second table: its entry is emptied, its caller's account is that of what is left, and slot 0 is cleared or its lifetime restarted |
| TrackerModel.FreeUnknown | source/nsdynmemtracker/nsdynmem_tracker_lib.c:136-185 | freeing anything else changes nothing and is reported |
| TrackerModel.TidyTables | source/nsdynmemtracker/nsdynmem_tracker_lib.c:205-218 | tidying slot 0 instead of the caller's slot changes no account |
| TrackerModel.LosingCall | source/nsdynmemtracker/nsdynmem_tracker_lib.c:68-105 | a growth callback that answers NULL: the call returns -1, the table is gone and nothing else has changed |
| TrackerModel.ExtTableLost | source/nsdynmemtracker/nsdynmem_tracker_lib.c:68-72 | without the second table exactly the live blocks that are in no slot cannot be freed any more, every entry it had among them, and the accounting is always broken |
| TrackerModel.MemTableLost | source/nsdynmemtracker/nsdynmem_tracker_lib.c:100-105 | without the first table every free returns 0 and does nothing; the accounting survives exactly if nothing is live, the last index is 0 and there is no second table; a later first table is searched within its bounds exactly if it has more slots than the last index |
| TrackerModel.RunAccounts | source/nsdynmemtracker/nsdynmem_tracker_lib.c:34-223 | after any run in which no callback takes a table away, the memory total is the sum of the live sizes, each caller owns one slot with the count and sum over both tables, and every live block would be found |
| TrackerModel.SlotGivenUp | source/nsdynmemtracker/nsdynmem_tracker_lib.c:187-218 | a slot is given up with its last block from the second table exactly if it is slot 0 |
| TrackerModel.SlotLeftBehind | source/nsdynmemtracker/nsdynmem_tracker_lib.c:205-218 | five calls from the empty tracker after which a slot stays occupied without a reference |
| TrackerModel.Probe | source/nsdynmemtracker/nsdynmem_tracker_lib.c:435-479 | the search with wraparound finds an entry exactly if there is one |
| Tracker.Conf.ExtFindFreeIndex | source/nsdynmemtracker/nsdynmem_tracker_lib.c:435-456 | the two loops find the first free entry from the start index, with wraparound |
| Tracker.Conf.ExtFindBlockIndex | source/nsdynmemtracker/nsdynmem_tracker_lib.c:458-479 | the two loops find the block from any start index |
| Tracker.Conf.Alloc | source/nsdynmemtracker/nsdynmem_tracker_lib.c:34-128 | the tables and the result are those of the abstract call, with tables that grow or are taken away, and the invariant is kept unless one is taken away |
| Tracker.Conf.Free | source/nsdynmemtracker/nsdynmem_tracker_lib.c:130-223 | a tracked block is found and forgotten, anything else changes nothing |
| TrackerSnapshot.InsertedSnapshot | source/nsdynmemtracker/nsdynmem_tracker_lib.c:368-384 | inserting the next slot at its place keeps a correct snapshot of the slots seen |
| TrackerSnapshot.InsertedIsWhole | source/nsdynmemtracker/nsdynmem_tracker_lib.c:371-375 | the truncated count moves the whole rest exactly for up to 256 entries |
| TrackerSnapshot.LongListForgets | source/nsdynmemtracker/nsdynmem_tracker_lib.c:367-375 | for every length above 256 a table of (length - 1) % 256 + 2 slots with ascending totals, fewer than the list has entries, whose first slot is missing from the list |
| TrackerSnapshot.ForgottenReached | source/nsdynmemtracker/nsdynmem_tracker_lib.c:34-128 | that table is reached from the empty tracker by allocations |
| TrackerSnapshot.SnapshotIff | source/nsdynmemtracker/nsdynmem_tracker_lib.c:340-389 | for a list of at least one entry the update is a correct snapshot of every well-formed table if and only if it has at most 256 |
| TrackerSnapshot.UpToRecords | source/nsdynmemtracker/nsdynmem_tracker_lib.c:377-384 | every entry of a list of any length is empty or has the number and the total size of one caller's live blocks, and the lifetime and line of that caller's slot |
| TrackerSnapshot.AllListedIfTheyFit | source/nsdynmemtracker/nsdynmem_tracker_lib.c:340-389 | with no more live slots than entries every one is listed |
| Tracker.Conf.MaxSnapShotUpdate | source/nsdynmemtracker/nsdynmem_tracker_lib.c:340-389 | for every length the list is the update of the table, truncated moves included; with 1 to 256 entries it is sorted by memory, from different live slots, and nothing left out exceeds its last entry; each entry has the number and size of its caller's live blocks and the lifetime and line of its slot |

## Left out

- Byte alignment of the heap and of added regions (nsdynmemLIB.c:138-149, :194-205): memory is word-aligned words of 4 bytes from the start.
- Critical sections: every operation is atomic. The build that uses the C library's malloc, the wrappers around the default book and the bodies of failure callbacks have no state of interest.
- Heap.Book.Free: expects NULL, a pointer to a block's data, live or free, or one outside all regions, and so do legal runs of `HeapModel`; for a pointer into the middle of a block the code reads data as a header, and what it detects then is best effort.
- Heap.Book.InternalAlloc: requests must fit the signed word type (nsdynmemLIB.c:331-340).
- Heap.Book.RegionAdd: added memory must be disjoint from the existing regions and have room for a descriptor and two tags; the code writes tags before it checks (nsdynmemLIB.c:207-225) and asks for three words only.
- The percentage threshold for temporary allocations (nsdynmemLIB.c:266-300): one branch per case.
- NsList.Count: the result is unbounded; the code's `uint_fast16_t` may wrap above 65535 entries.
- NsList: a pointer's value is its first word; the other words belong to it but are not written. The reverse iteration that allows deletion and the link state test are not modelled.
- NvmModel.DrainServesAll: the platform refuses nothing while the machine drains.
- NvmModel.AtMostOnce: pending requests are refused harmlessly only; `NvmOverlap.AtMostOnceAlways` has the other histories.
- NvmModel.ExactlyOnceWhenIdle: the same; `NvmOverlap.ExactlyOnceAtRest` has the other histories, and states that never come to rest are in `NvmModel.KeptInTheEnd`.
- NvmModel.KeptInTheEnd: the same; that a machine with several operations outstanding comes to rest is not stated.
- NvmModel.RunKeepsInv: the same; `NvmDrain.RefusalsExact` shows that the code keeps one operation and a right flag in no other case.
- NvmOverlap.AtMostOnceAlways: ends where a removed entry is read (`NvmDrain.ThreeReadsFault`); what a poisoned link leads to is not modelled.
- NvmHelper.Helper.ProcessPending: as `NvmHelper.Helper.OperationEnd`.
- NvmHelper.Helper.OperationEnd: refusals are harmless, as for the state machine; the pending list is a sequence field of the helper; its pointer form is `NsList`. Key names and data buffers are only passed on and do not appear.
- Ip6Parse.Stoip6: the text has no NUL before its length and the character after it is neither hexadecimal nor a colon, as both callers ensure; `sprintf`, `strtoul`, `memcpy` and `memmove` are given by what they compute.
- The prefix length alone (`sipv6_prefixlength`), IPv4 text (`stoip6` does not read form 3 of section 2.2 of RFC 4291 and says so), and the byte readers and bit counters of common_functions.h: single expressions or smaller copies of what is here.
- Checksum.IpFcfV: the accumulator is exactly 32 bits wide, the least that its type guarantees.
- TrackerModel.AllocKeeps: callers are not NULL and a live block is not handed out again; growth callbacks keep existing entries and append empty ones or answer NULL, a first table of slots is not empty, the hash stays inside the table, and `ref_count` is unbounded (it never exceeds the number of table entries plus one).
- Lifetime steps, permanent marks, the top and permanent lists and the function names of the tracker: single-branch bookkeeping.
