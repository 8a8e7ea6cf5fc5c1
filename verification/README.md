# Verified models of the server runtime

A Dafny model of the algorithms of this server runtime, and proofs of what they are for. `dafny verify
dfyconfig.toml` checks the whole project.

The runtime is written in the style of C: objects with intrusive links, arrays updated in place, threads that
exchange work through queues and wake-up pipes. The models keep that form. Where the source updates an object, a
class has its fields and methods that change them; where threads interleave, a state machine has one step for each
section that is atomic in the source, and the methods are proved to be runs of that machine. Each method is proved
against a specification by value, and the properties are proved of the specifications.

| Part | Files |
|---|---|
| Red-black tree and timer queue | `RbShape`, `RbMem`, `RbInsert`, `RbSplice`, `RbDelete`, `RbTree`, `EventTimer` |
| Shared-memory allocator | `Arithmetic`, `SizeClasses`, `Lists`, `IntrusiveQueue`, `ShmemBlocks`, `ShmemLists`, `Shmem` |
| Slab layer | `SlabClasses`, `Slabs` |
| Invoke and complete protocol | `WakeUp`, `Workers`, `Invocations`, `Framework` |
| Hash ring and retries | `HashRing`, `HostGroups`, `Requests` |
| DES and triple DES | `Des`, `DesTables`, `DesKeys`, `PairTables`, `DesCiphers`, `DesStandard`, `DesRefines` |
| Memory pool, connection pools | `MemoryPool`, `ConnExchange`, `ConnPool` |
| Calendar, codecs, HTTP text | `Calendar`, `Base64`, `UriEscape`, `Query`, `HttpHeaders` |

`Basics` holds two types that several modules share.

The tree lives in the heap, node by node, with parent links and one sentinel; ghost trees and paths (`RbShape`)
describe it, and snapshots of the fields (`RbMem`) carry the proofs from step to step. The allocator is described by
its region, the sequence of blocks in address order with their sizes: every operation is a function of that
sequence. For DES, `DesStandard` writes out FIPS 46-3 with its tables, and `DesRefines` proves that the macros with
their rotated words and reordered subkeys compute it.

## Findings

Where a property fails, the model keeps the code as it is and proves when the property holds.

| What fails | Input | Where it holds |
|---|---|---|
| `string_unescape_uri` undoes `string_escape_uri` | the string `%41` with the type of refresh, whose table leaves out the percent sign its comment names: it comes back as `A` (`UriEscape.RefreshLosesPercents`) | for every string with the other types, and for a string without percent signs with this one (`UriEscape.UndoneExactly`) |
| `GetHashIdx` stays inside the vector | one master, any hash beyond the last offset (`HashRing.OneMasterOverruns`) | for every hash up to the last offset, and beyond it for the ring sizes n with 2(n + 2) <= 3 * 2^floor(log2(n + 1)) (`HashRing.StaysInBounds`, `HashRing.WrapsSafelyExactly`) |
| parsing `RequestUri::uri()` gives back the query | a value of the single byte 0: it comes back empty (`Query.NulIsLost`) | exactly if no value holds a NUL (`Query.QueryReturns`) |
| `shs_slabs_clsid` finds a class for every size up to the largest | a power table of two classes of 64 and 128 bytes, a request for 100 (`SlabClasses.TwoClassesTurnAway`) | for every other table; the requests turned away are named exactly (`SlabClasses.ClsId`) |
| `shs_shmem_alloc` succeeds if some free block is large enough | in a region of one page, with a least size of 32 and steps of 8: allocate 8 and 64 bytes, free the 8, and ask for 16; the free block of 8 hides one of 3544 (`Shmem.SmallRequestRefused`) | always above the least size (`Shmem.Shmem.ServedAboveMinimum`); below it, exactly if class 0 is empty or holds a block that is large enough, too (`Shmem.Shmem.ServedExactly`) |
| `shs_slabs_free` takes a chunk back without an error | the only live chunk of the manager, while the statistics are exact (`Slabs.Manager.LastFreeIsReported`): the early return comes after the chunk is back on its list | exactly while the other live chunks and what has leaked come to at least 32 bytes (`Slabs.Manager.ReportedExactly`) |
| `free_size` is the size of the chunks on the free lists | a chunk taken, given back as above, and taken again: it sinks below zero, and `size_t` wraps (`Slabs.TakenTwice`) | exactly while no early return has leaked a chunk; with `used_size` it always adds up to the sizes of all chunks (`Slabs.Manager.SizesAddUp`) |
| a task that `AddTask` accepts is run | an idle worker is asked to stop and leaves, then a task is pushed (`WakeUp.PushedTooLate`) | exactly for the tasks accepted before the worker leaves (`WakeUp.RunExactlyBeforeLeaving`), and for all at rest while it has not left (`WakeUp.AtRestAllHanded`) |
| feeding the header block in pieces gives what the whole gives | a cut between CR and LF, such as `A: b` CR and LF, or any well-formed header: the second half is read as the blank line (`HttpHeaders.HalfPairEndsHeaders`) | exactly if no cut is between a CR and its LF, or what is before the cut is corrupted or ends in the body, or a single CR is all that follows the LF (`HttpHeaders.CutAgreesExactly`) |
| `pool_alloc` serves large requests | a pool made with size 50: its largest small request is 2 bytes, less than the node of a large area, and the recursion ends only when the allocator refuses (`MemoryPool.PoolOfFifty`) | exactly if the largest small request is at least 24 bytes, the allocator grants the area, and the node finds room in a block or in one granted next (`MemoryPool.Pool.Alloc`) |
| `http_append_to_last_input_header` appends to the last header | a continuation line behind 35 well-formed headers goes to the first one (`HttpHeaders.FullGoesToFirst`) | exactly with fewer headers (`HttpHeaders.ContinuesTheLast`) |

The documentation of `time_gmtime` calls its arithmetic valid for positive times; before March 1, 1970 an unsigned
difference wraps below zero and back, which the model keeps (`Calendar.WrapsBack`).

## Model

| member | source | states |
|---|---|---|
| `RbTree.RbTree.Insert` | src/core/shs_rbtree.cc:34-108 | The tree stays sorted, linked both ways below the root and red-black; in key order the new node comes after every node with a key that is not larger, and no other node moves. |
| `RbTree.RbTree.Delete` | src/core/shs_rbtree.cc:181-367 | Exactly the given node leaves: the order of the others is untouched, the tree stays red-black and correctly linked, and the removed node keeps no links and no key. The parent of the root may be stale. |
| `RbTree.RbTree.InsertTimerValue` | src/core/shs_rbtree.cc:134-179 | The new node is hung, red, in the one place that keeps the order of the keys, behind equal ones. |
| `RbTree.RbTree.InsertFixup` | src/core/shs_rbtree.cc:57-107 | The repair loop ends; it restores the colour rules without changing the order of the nodes. |
| `RbTree.RbTree.DeleteFixup` | src/core/shs_rbtree.cc:293-366 | The repair loop ends; a missing black node on one path is made up for without changing the order. |
| `RbTree.RbTree.LeftRotate` | src/core/shs_rbtree.cc:369-400 | Which links a rotation changes, field by field, and that all others stay. |
| `RbTree.RbTree.RightRotate` | src/core/shs_rbtree.cc:402-432 | The mirror image, against the same specification of all fields. |
| `RbTree.RbTree.Substitute` | src/core/shs_rbtree.cc:225-286 | The successor of a node with two children takes its place, links and colour, through the three steps of the code and also when it is a child of the removed node. |
| `RbTree.RbTree.First` | src/core/shs_rbtree.cc:434-442 | The node found by going left from the root is the first one in key order. |
| `RbShape.HeightIsLogarithmic` | src/core/shs_rbtree.cc:34-108 | The height h of a red-black tree of n nodes obeys 2^h <= (n + 1)^2. |
| `RbShape.InsertSortedProps` | src/core/shs_rbtree.cc:134-179 | What inserting in key order means: the result is sorted and has exactly the old entries and the new one. |
| `EventTimer.TimerQueue.Expire` | src/core/shs_event_timer.cc:12-47 | Runs to the end; the timers that fire are those of the specification `Fires`, all marked as timed out, and the queue that is left is the one of `Expired`; flags and tree agree throughout. |
| `EventTimer.FiresInOrder` | src/core/shs_event_timer.cc:12-47 | Timers fire in the order of the queue: by key, and in insertion order among equal keys, each at most once. |
| `EventTimer.AllDueFire` | src/core/shs_event_timer.cc:12-47 | If no handler puts a due timer off, exactly the due timers fire. |
| `EventTimer.OnlyPutOffIsMissed` | src/core/shs_event_timer.cc:12-47 | A due timer is missed only if the handler of a timer that fired put it off by 300 ms or more. |
| `EventTimer.NothingDueIsLeft` | src/core/shs_event_timer.cc:12-47 | After the loop every timer left is later than now. |
| `EventTimer.TimerQueue.Add` | src/core/shs_event_timer.cc:82-109 | An event that is armed less than 300 ms from the requested time keeps its key and its place; any other is then armed once, at exactly now + delay, and the other timers stay as they were. |
| `EventTimer.TimerQueue.Del` | src/core/shs_event_timer.cc:70-80 | Exactly the timer of the event leaves the queue, if it was armed. |
| `EventTimer.TimerQueue.FindTimer` | src/core/shs_event_timer.cc:49-68 | The wait is the least key minus now, not below zero, or infinite for an empty queue. |
| `SizeClasses.InsertClassAtLeast` | src/core/shs_shmem.cc:103-124 | A block is filed under class k or above exactly if it has the least size of class k, in linear and in exponential tables. |
| `SizeClasses.AllocClassAtMost` | src/core/shs_shmem.cc:70-101 | A request is looked up at class k or below exactly if the least size of class k suffices for it. |
| `SizeClasses.RoundingAgrees` | src/core/shs_shmem.cc:70-124 | Rounding down for blocks and up for requests agree: any block of the class looked up, or above it, is large enough. |
| `SizeClasses.AllocIndex` | src/core/shs_shmem.cc:70-101 | The computed index is the class of the request. |
| `SizeClasses.InsertIndex` | src/core/shs_shmem.cc:103-124 | The computed index is the class of the block. |
| `Arithmetic.DfsLog2` | src/core/shs_math.cc:578-594 | The loop with the test x & (x - 1) computes the rounded-up or rounded-down logarithm. |
| `Arithmetic.LowBitTest` | src/core/shs_math.cc:578-594 | x & (x - 1) is zero exactly for the powers of two. |
| `Shmem.Shmem.Alloc` | src/core/shs_shmem.cc:394-536 | A block is found exactly if the request is servable; it comes from the class the search settles on, the first one of that list that is large enough. It is handed out whole if less than a header and the split threshold would be left, and otherwise cut to the size asked for; on failure nothing changes but the counter, and the error says why. |
| `Shmem.Shmem.ServedAboveMinimum` | src/core/shs_shmem.cc:414-497 | Above the least size a request is servable exactly if some free block is large enough. |
| `Shmem.Shmem.SplitAlloc` | src/core/shs_shmem.cc:606-651 | Hands out a globally largest free block, whole, and fails exactly if it is smaller than asked. |
| `Shmem.Shmem.GetMax` | src/core/shs_shmem.cc:551-604 | Finds a largest free block, exactly if there is a free block. |
| `Shmem.Shmem.FreeBlock` | src/core/shs_shmem.cc:653-730 | The freed block is merged with its free neighbours on both sides and nothing else changes; a zero address and a block that is not allocated are errors. |
| `Shmem.Shmem.RemoveFree` | src/core/shs_shmem.cc:294-335 | A block leaves its list and, if that is empty now, its class the available list; the error branches are never taken. |
| `Shmem.Shmem.InsertFree` | src/core/shs_shmem.cc:337-392 | A block goes to the head of the list its size maps to, and the class to its place in the available list. |
| `Shmem.Shmem.Choose` | src/core/shs_shmem.cc:414-468 | The search over the available list settles on the lowest class in use that is not below the index, or on the highest one. |
| `Shmem.Shmem.Conserved` | src/core/shs_shmem.cc:126-730 | In every state the blocks and their headers tile the region exactly: used size, free bytes and one header for each block add up to it. |
| `Shmem.Shmem.Disjoint` | src/core/shs_shmem.cc:126-730 | Blocks lie inside the region and do not overlap, in address order. |
| `Shmem.Shmem.AllFreed` | src/core/shs_shmem.cc:653-730 | When every block is free, there is one block of the original size. |
| `Shmem.FreeUndoesAlloc` | src/core/shs_shmem.cc:394-730 | Freeing what was just carved out gives back the region as it was, for any split threshold. |
| `Shmem.CarvedHands` | src/core/shs_shmem.cc:507-533 | The block handed out keeps fewer spare bytes than a header and the threshold; if it is cut it keeps none, and the free rest has at least the threshold. |
| `Shmem.Create` | src/core/shs_shmem.cc:126-270 | Ready exactly if the arguments are good, the mapping succeeds and the pages hold the bookkeeping, one header and a block of the largest size; the region then is one free block behind the bookkeeping. |
| `Shmem.ClassesAtMost` | src/core/shs_shmem.cc:156-190 | The number of classes is the least for which the last class takes the largest size. |
| `ShmemBlocks.CoalesceMerged` | src/core/shs_shmem.cc:653-730 | Merging leaves no two free neighbours and conserves the extent and both size sums. |
| `ShmemBlocks.CoalesceKeepsBusies` | src/core/shs_shmem.cc:653-730 | Merging leaves every busy block as it is, in its order. |
| `ShmemLists.ChosenIsRight` | src/core/shs_shmem.cc:414-497 | The one class that is searched holds a fitting block exactly if the request is servable. |
| `Shmem.Shmem.ServedExactly` | src/core/shs_shmem.cc:414-497 | From what the region shows: a request is servable exactly if some free block is large enough, where below the least size only the blocks of class 0 count as soon as there is one. |
| `Shmem.SmallRequestRefused` | src/core/shs_shmem.cc:394-497 | In a fresh region of one page, two requests and one release lead to a state in which a request for 16 bytes fails although 3544 bytes are free in one block. |
| `IntrusiveQueue.InsertHead` | src/core/shs_queue.h:40-46 | The ring with the new member first. |
| `IntrusiveQueue.PutBefore` | src/core/shs_queue.h:56-62 | The ring with the new member right before the given one. |
| `IntrusiveQueue.PutAfter` | src/core/shs_queue.h:64-70 | The ring with the new member right behind the given one. |
| `IntrusiveQueue.Unlink` | src/core/shs_queue.h:80-85 | The ring without the member, whose own links are cleared. |
| `IntrusiveQueue.SplitOff` | src/core/shs_shmem.cc:510-527 | The three macro calls on the copied header end with the new block right behind the old one. |
| `SlabClasses.ClsId` | src/core/shs_slabs.cc:29-106 | The class found holds the request and the one below has no spare room; the requests turned away are named exactly. |
| `SlabClasses.ChunkRoom` | src/core/shs_slabs.cc:190-202 | Behind its link a chunk has room for the largest request of its class, rounded up to 8 bytes; classes grow by 1024 bytes or twofold from the least size. |
| `SlabClasses.OnlyTwoClassesTurnAway` | src/core/shs_slabs.cc:29-106 | Every table but a power table of two classes serves every request up to its largest class. |
| `SlabClasses.SearchPower` | src/core/shs_slabs.cc:73-103 | The binary search fails exactly in a table of two classes. |
| `SlabClasses.TwoClassesTurnAway` | src/core/shs_slabs.cc:73-103 | A request a table of two classes turns away although its larger class would hold it. |
| `SlabClasses.ClassCount` | src/core/shs_slabs.cc:133-177 | The table is just long enough for the largest size: its last class takes it, and the one before does not. |
| `Slabs.Manager.Alloc` | src/core/shs_slabs.cc:329-422 | The first chunk of the list of the tightest class, without asking the backing allocator, or else a new one; fails only if all free lists are empty and the backing allocator has just refused that class size; every chunk is live or in the list of its class, and the size statistics count both but for what early returns have leaked. |
| `Slabs.Manager.Recover` | src/core/shs_slabs.cc:262-327 | One chunk of the next larger class in use goes back to the backing allocator; without one, smaller chunks until they come to twice the size, and not to three times; enough exactly then, and otherwise all lists are empty. |
| `Slabs.Manager.Obtain` | src/core/shs_slabs.cc:363-391 | The loop of allocating and recovering ends, with a chunk exactly if the last request was granted. |
| `Slabs.Manager.SplitAlloc` | src/core/shs_slabs.cc:424-500 | Succeeds exactly if the size is neither 0 nor above the largest class and the backing allocator grants the least room; the chunk has the size handed out and is kept apart from the classes, and all statistics are stated. |
| `Slabs.Manager.Free` | src/core/shs_slabs.cc:502-562 | The chunk goes to the head of its list, or back if it was split off; chunk counts stay exact, the result and all size statistics are stated, and an early return leaks the size of the chunk. |
| `Slabs.Manager.LastFreeIsReported` | src/core/shs_slabs.cc:550-555 | Giving back the only live chunk of the manager is reported as an error while nothing has leaked. |
| `Slabs.Manager.ReportedExactly` | src/core/shs_slabs.cc:550-555 | Giving a chunk of a class back is reported exactly if the other live chunks and what has leaked come to less than the 32 bytes of a link. |
| `Slabs.Manager.SizesAddUp` | src/core/shs_slabs.cc:262-562 | In every state used_size and free_size together are the sizes of all chunks; free_size is right exactly if nothing has leaked, and below zero exactly if more has leaked than the lists hold. |
| `Slabs.TakenTwice` | src/core/shs_slabs.cc:329-562 | A small chunk is taken, given back with an error and taken again; free_size is below zero then. |
| `WakeUp.EveryRun` | src/worker.cc:146-184 | Under every interleaving a non-empty queue has a byte in the pipe, a producer about to notify, the consumer between drain and swap or stopping, or a consumer that has left; the queue keeps its limit; the tasks accepted are, in push order, those handed out, those of the batch being run and those in the queue. |
| `WakeUp.InternalStepsEnd` | src/event_watcher.cc:123-161 | No run of notify, read, swap and run steps goes on forever. |
| `WakeUp.AtRestAllHanded` | src/worker.cc:146-184 | When no such step is left, every accepted task has been handed out, unless the worker has left: then those it has not handed out are in the queue. |
| `WakeUp.Settles` | src/worker.cc:146-184 | From every state the internal steps lead to rest without further pushes, with every accepted task handed out unless the worker has left. |
| `WakeUp.RunExactlyBeforeLeaving` | src/worker.cc:135-168 | A worker that has left has handed out exactly the tasks accepted before it left; later ones stay in the queue. |
| `WakeUp.PushedTooLate` | src/worker.cc:135-168 | A run at whose end, with nothing left to happen, a task is accepted and not handed out. |
| `Workers.Worker.AddTask` | src/worker.cc:146-168 | Accepts a task exactly if the queue is empty or below its limit, and writes one byte to the pipe exactly on the change from empty, unless the pipe is full. |
| `Workers.Worker.Drain` | src/event_watcher.cc:123-161 | The read loop empties the pipe; its steps are steps of the protocol. |
| `Workers.Worker.HandleTask` | src/worker.cc:170-184 | Takes the whole queue at once and runs it in order. |
| `Workers.Worker.HandleStop` | src/worker.cc:135-144 | What is queued when the stop is handled still runs, then the worker is stopped. |
| `Invocations.CompletedOnce` | src/framework.cc:330-521 | In every run each handler is called at most once, and exactly once when its id has left the timers; armed timeouts are the keys of the timers and the queue length their number. |
| `Invocations.TimeoutFindsTimer` | src/framework.cc:450-461 | A timeout that fires never looks up an id that is missing. |
| `Invocations.RepliesArePosted` | src/framework.cc:493-521 | A completion with a reply passes on the first value that a callback posted for that id. |
| `Invocations.AnsweredIsCompleted` | src/framework.cc:411-521 | Once the loop is at rest, every invocation for which a result was posted is completed. |
| `Invocations.OutcomeExactly` | src/framework.cc:330-521 | What a handler is told: that its time is out exactly if its timeout fired, that the module is invalid exactly if it was not known, and otherwise the first result posted for it; all calls for one id are the same one. |
| `Invocations.PostsAreAccepted` | src/framework.cc:411-429 | The results let in are exactly those posted, in order. |
| `Invocations.NothingArmedAllCompleted` | src/framework.cc:450-521 | When no timeout is armed, every invocation is completed. |
| `Framework.Framework.Invoke` | src/framework.cc:330-409 | Is the invoke step of the protocol; a known module gets its timer, an unknown one completes at once. |
| `Framework.Framework.HandleInvokeTimeout` | src/framework.cc:450-491 | Is the timeout step; the id is found. |
| `Framework.Framework.HandleInvokeComplete` | src/framework.cc:493-544 | Takes all results and is a run of delivery steps, in order; what each delivery tells its handler is stated by OutcomeExactly. |
| `HashRing.StaysInBounds` | src/downstream/host.cc:368-397 | Up to the last offset the search returns the least index whose offset is not below the hash; beyond it, the search stays in bounds exactly for the ring sizes named. |
| `HashRing.WrapsSafelyExactly` | src/downstream/host.cc:368-397 | For which ring sizes a hash beyond the last offset is safe: 2(n + 2) <= 3 * 2^floor(log2(n + 1)). |
| `HashRing.OneMasterOverruns` | src/downstream/host.cc:387-391 | With one master, every hash beyond the last offset indexes past the vector. |
| `HashRing.FairShare` | src/downstream/host.cc:340-397 | On an evenly spaced ring each owner serves its number of nodes times the spacing of the hash values. |
| `HostGroups.HostGroup.HashInit` | src/downstream/host.cc:340-366 | The nodes are sorted by their hashes, 200 for each master, and keep their owners in that order; the offsets become the multiples of avg, where avg times the number of nodes is the largest such product up to the largest hash; no 32-bit overflow; avg is above 0 exactly if some hash reaches the number of nodes. |
| `HostGroups.HostGroup.EqualShares` | src/downstream/host.cc:340-397 | Each master serves exactly 200 * avg of the hash values 1 to n * avg. |
| `HostGroups.HostGroup.SafeHashes` | src/downstream/host.cc:368-397 | Which hashes are looked up inside the vector. |
| `HostGroups.HostGroup.GetPos` | src/downstream/host.cc:323-338 | The insertion point behind every node with an offset that is not larger. |
| `HostGroups.HostGroup.Master` | src/downstream/host.cc:411-467 | No host exactly if every master has been tried; otherwise the first untried one clockwise from the hash, which is then recorded. |
| `HostGroups.HostGroup.SelectHost` | src/downstream/host.cc:399-409 | Masters that were not tried come before any slave. |
| `HostGroups.HostGroup.Slave` | src/downstream/host.cc:469-503 | The first slave without failures going round from the hash, on a retry that many places later; without one, the first that is alive, from the hash itself; none exactly if all have failed and none is alive. |
| `Requests.Run` | src/downstream/request.cc:132-326 | For every sequence of answers the response handler is called exactly once, after at most max_retry + 1 attempts. Each attempt ends in the error its answer means, with success exactly for a transport success with status 200 or without a status; the first success ends the run, and otherwise the last error of max_retry + 1 attempts is reported, or a bad request when an attempt is not sent, because it could not be set up or no host is left. Each attempt goes to the next master clockwise that was not tried, or else to the slave for that retry. |
| `Requests.RequestContext.TryAgain` | src/downstream/request_context.h:40-51 | Another attempt is made exactly if the retry limit is not reached. |
| `Requests.Convert` | src/downstream/request.cc:26-66 | An attempt counts as a success exactly for a transport success with status 200, or without a status and with no error so far; another status is a bad response, otherwise an error from before stays, and a transport error is passed on. |
| `Des.FinalUndoesInitial` | src/core/shs_math.cc:261-295 | The final permutation inverts the initial one, rotations included. |
| `Des.MirroredTurnsUndo` | src/core/shs_math.cc:297-312 | A Feistel network runs backwards with swapped words and reversed subkeys, for any number of rounds. |
| `Des.CryptUndone` | src/core/shs_math.cc:449-470 | Reversed subkeys undo 16 rounds and 48 rounds, in both orders. |
| `DesRefines.DesIsStandard` | src/core/shs_math.cc:338-470 | A block enciphered by the code is the block FIPS 46-3 gives for that key: tables, key schedule, rounds and permutations. |
| `DesKeys.BytesFromTheLeft` | src/core/shs_math.cc:317-325 | The first byte of a block holds its leftmost bits, as FIPS 46-3 numbers them. |
| `DesRefines.MixIsF` | src/core/shs_math.cc:297-312 | One DES_ROUND adds the cipher function f of the standard, on words rotated by one bit. |
| `DesRefines.ScheduleIsStandard` | src/core/shs_math.cc:338-422 | The 16 pairs of subkey words hold the subkeys of the standard, for every key. |
| `DesRefines.TripleIsStandard` | src/core/shs_math.cc:503-563 | The 48 rounds without permutations in between are encipher, decipher, encipher with three keys. |
| `DesRefines.Encipher` | src/core/shs_math.cc:424-475 | Setting a key and enciphering gives the block of the standard. |
| `DesRefines.EncipherTriple` | src/core/shs_math.cc:503-563 | Setting three keys and enciphering gives the block of the standard for triple DES. |
| `DesCiphers.BlockRestored` | src/core/shs_math.cc:449-563 | With the decryption table every block is restored. |
| `DesCiphers.OneKeyRoundTrip` | src/core/shs_math.cc:424-475 | Set a key, encrypt, decrypt: the block is the same. |
| `DesCiphers.ThreeKeyRoundTrip` | src/core/shs_math.cc:503-563 | The same with three keys. |
| `DesCiphers.EqualKeysAreSingle` | src/core/shs_math.cc:480-563 | With equal keys triple DES is DES. |
| `DesCiphers.Context.SetKey` | src/core/shs_math.cc:424-435 | The decryption table is the encryption table with its pairs in reverse. |
| `DesCiphers.Context.SetTwoKeys` | src/core/shs_math.cc:480-501 | The tables of 48 subkeys for two keys. |
| `DesCiphers.Context.SetThreeKeys` | src/core/shs_math.cc:503-523 | The tables of 48 subkeys for three keys. |
| `DesCiphers.Context.EcbCrypt` | src/core/shs_math.cc:449-470 | The rounds over the key pointer compute the block of the chosen table. |
| `DesKeys.ParityIgnored` | src/core/shs_math.cc:338-372 | The parity bits of a key do not influence its subkeys. |
| `DesKeys.IsWeakKey` | src/core/shs_math.cc:221-254 | The binary search finds a key exactly if its bytes, with the lowest bit of each cleared, are in the table. |
| `DesKeys.NumberOfEight` | src/core/shs_math.cc:221-254 | Keys are compared as big-endian numbers of eight bytes. |
| `MemoryPool.Pool.Alloc` | src/core/shs_memory_pool.cc:97-128 | A region of the size asked for, aligned, behind all earlier ones. A small request takes the first block from the current one on that has room, or a new block the allocator grants, and fails exactly without both; a large one succeeds exactly if the largest small request is at least 24 bytes, the area is granted, and its node finds room or is granted a block next. With that least size the allocator is asked at most twice. |
| `MemoryPool.FitsExactly` | src/core/shs_memory_pool.cc:111-114 | A block has room exactly if an aligned region of that size lies between its last byte used and its end. |
| `MemoryPool.RegionsApart` | src/core/shs_memory_pool.cc:97-213 | All regions handed out are pairwise disjoint. |
| `MemoryPool.HomeIsLive` | src/core/shs_memory_pool.cc:97-213 | Each region lies inside an area the pool holds from the allocator. |
| `MemoryPool.Pool.AllocBlock` | src/core/shs_memory_pool.cc:143-181 | Succeeds exactly if the allocator grants an area of the size of the first block; that area becomes the last block and starts with the request behind its header, and the search starts behind the last full block from now on. |
| `MemoryPool.Pool.AllocLarge` | src/core/shs_memory_pool.cc:183-213 | Succeeds exactly if the area is granted and its node finds a place; otherwise the area goes back and the allocator holds what it held for others. |
| `MemoryPool.Pool.Destroy` | src/core/shs_memory_pool.cc:68-95 | Every block and every large area goes back exactly once, with its size; the memory of others is untouched. |
| `MemoryPool.Create` | src/core/shs_memory_pool.cc:7-37 | A pool results exactly for a size above 0 that the allocator grants, 48 bytes more below the size of the header; the first block has that size, and the largest request served from it is stated. |
| `MemoryPool.PoolOfFifty` | src/core/shs_memory_pool.cc:7-37 | A pool made with size 50 serves no request above two bytes, whatever the allocator grants. |
| `ConnExchange.EveryRun` | src/core/shs_conn_pool.cc:108-251 | In every run of any number of pools: free + used = size + change in each; the changes, the common list and the connections on their way sum to zero; each connection is in exactly one place; no pool holds more free ones than it was made with. |
| `ConnExchange.AtRestTheRestIsCommon` | src/core/shs_conn_pool.cc:108-239 | With nothing in use, the common list holds exactly what the pools lack, and a pool that ran dry can take from it. |
| `ConnExchange.StepsOfOneCall` | src/core/shs_conn_pool.cc:108-142 | Without interruption the steps of a call have the outcome of the method. |
| `ConnExchange.StepsOfGivingBack` | src/core/shs_conn_pool.cc:144-160 | The same for giving a connection back: to the common list exactly while the pool has a surplus. |
| `ConnPool.Pool.GetConnection` | src/core/shs_conn_pool.cc:108-142 | The head of the free list; an empty pool refills itself with up to as many as it gave away; no connection exactly if it gave none away or none has come back. |
| `ConnPool.Pool.FreeConnection` | src/core/shs_conn_pool.cc:144-160 | A pool that holds foreign connections passes them on to the common list. |
| `ConnPool.FreeList.Take` | src/core/shs_conn_pool.cc:191-239 | The list is cut in place behind the first n links. |
| `ConnPool.Init` | src/core/shs_conn_pool.cc:13-76 | The connections are linked in order; a pool of none is refused. |
| `Calendar.Gmtime` | src/core/shs_time.cc:76-153 | For every time the fields form a date that exists, that date lies the given number of seconds (in 32 bits) after 1970, and the weekday is right. |
| `Calendar.DateIsUnique` | src/core/shs_time.cc:76-153 | No two dates share a count of seconds, so the fields are the only right ones. |
| `Calendar.YearEstimate` | src/core/shs_time.cc:97-114 | The estimate of the year is right or one too large. |
| `Calendar.MonthFormula` | src/core/shs_time.cc:116-144 | The month and day formulas agree with the lengths of the months, leap years included. |
| `Base64.DecodeUndoesEncode` | src/core/shs_string.cc:976-1086 | Decoding undoes encoding, for every byte string. |
| `Base64.EncodeUndoesDecode` | src/core/shs_string.cc:976-1086 | Encoding undoes decoding exactly for padded text without unused bits. |
| `Base64.SameNumber` | src/core/shs_string.cc:987-995 | Four letters and the three bytes they stand for denote the same 24-bit number (section 4 of RFC 4648). |
| `Base64.LettersOfAlphabet` | src/core/shs_string.cc:980-981 | The letters are those of table 1 of RFC 4648, in its order. |
| `Base64.BodyEndsAtPadding` | src/core/shs_string.cc:1044-1054 | What is decoded ends before the first padding byte. |
| `Base64.Encode` | src/core/shs_string.cc:976-1018 | The loop computes the specified text. |
| `Base64.Decode` | src/core/shs_string.cc:1020-1086 | Fails exactly on a byte outside the alphabet before the padding or a single letter left over. |
| `UriEscape.UndoneExactly` | src/core/shs_string.cc:1229-1515 | Unescaping undoes escaping exactly if the type is not the one of refresh, or the string has no percent sign. |
| `UriEscape.RefreshLosesPercents` | src/core/shs_string.cc:1296-1314 | The string %41 comes back as A. |
| `UriEscape.TablesCover` | src/core/shs_string.cc:1236-1337 | The bit tables hold exactly the bytes named. |
| `UriEscape.CountPredicts` | src/core/shs_string.cc:1340-1354 | The counting pass predicts an output of size + 2n bytes. |
| `UriEscape.Escape` | src/core/shs_string.cc:1356-1372 | The loop computes the escaped string. |
| `UriEscape.Unescape` | src/core/shs_string.cc:1375-1515 | The machine that reads one byte at a time computes what looking ahead from each percent sign gives, in every mode, and stops where that does. |
| `UriEscape.PrintableIsRead` | src/core/shs_string.cc:1440-1506 | An escaped byte is read as that byte if it is printable and above the percent sign, and always unless for a redirect; a question mark ends the reading in the modes that stop there. |
| `UriEscape.OthersStay` | src/core/shs_string.cc:1440-1506 | For a redirect all other escaped bytes stay escaped; with both flags only those whose last digit is decimal. |
| `UriEscape.RedirectReadsPrintables` | src/core/shs_string.cc:1440-1506 | For a redirect every byte that comes out was there, or is printable. |
| `UriEscape.UnreadIsBehindQuestion` | src/core/shs_string.cc:1399-1485 | Input is left unread only behind an output that ends with a question mark, and never in the plain mode. |
| `Query.DecodeUndoesEncode` | src/http/http.cc:1619-1679 | Decoding undoes encoding exactly if no space goes out as a plus sign that is not read back. |
| `Query.EncodedBytes` | src/http/http.cc:1593-1645 | Only letters, digits, -._~ and percent signs go out, and plus signs where they stand for spaces. |
| `Query.EncodedUnchanged` | src/http/http.cc:1593-1645 | A string goes out unchanged exactly if it holds only letters, digits and -._~. |
| `Query.DecodedUnchanged` | src/http/http.cc:1649-1679 | Decoding changes nothing exactly if there is no percent sign before two digits and no plus sign to read as a space. |
| `Query.ParseUndoesUri` | src/downstream/request.cc:89-110 | Parsing the uri gives back the map, its values cut at the first NUL, for any order of iteration. |
| `Query.QueryReturns` | src/http/http.cc:1681-1709 | The map comes back exactly if no value holds a NUL; base without ?, keys without & and =. |
| `Query.NulIsLost` | src/downstream/request.cc:89-110 | A value of a single NUL comes back empty. |
| `Query.RequestUri.Uri` | src/downstream/request.cc:89-110 | The loop writes the items behind ? and &. |
| `Query.Decode` | src/http/http.cc:1649-1671 | Looking two bytes behind a percent sign stays within the string and its terminator. |
| `Query.ParseQuery` | src/http/http.cc:1681-1709 | The pieces are collected up to the first without =, and the first value of a key stays. |
| `Query.StopsAtPlain` | src/http/http.cc:1694-1701 | The first piece without an equals sign, and those behind it, add nothing. |
| `Query.PieceTaken` | src/http/http.cc:1697-1707 | A piece gives its key, the part before the first equals sign, the rest as its value, unless the key has one. |
| `HttpHeaders.HeadersReturn` | src/http/http.cc:386-412 | Parsing the printed block gives back the same list of at most 35 well-formed headers, and leaves exactly the body. |
| `HttpHeaders.ParseUndoesPrint` | src/http/http.cc:397-412 | The same for all 35 slots, of which those without key or value are skipped. |
| `HttpHeaders.PiecesAgree` | src/http/http.cc:1136-1179 | Input fed in any pieces, none cut between a CR and its LF, ends with the headers and the rest of the whole (section 3.2 of RFC 7230). |
| `HttpHeaders.CutAgreesExactly` | src/http/http.cc:1049-1091 | Two pieces agree with the whole exactly if the cut is not between a CR and its LF, or the first piece is corrupted or already ends in the body, or, while the headers go on, a single CR is all that follows the LF. |
| `HttpHeaders.HalfPairEndsHeaders` | src/http/http.cc:1049-1091 | Cut between its CR and LF, any well-formed header line is taken for the end of the headers. |
| `HttpHeaders.CutAgrees` | src/http/http.cc:1049-1179 | The same without a condition on the line ends, one way. |
| `HttpHeaders.Request.ParseHeaders` | src/http/http.cc:1136-1179 | The loop computes the outcome of the specification: headers, rest and status. |
| `HttpHeaders.Request.Feed` | src/http/http.cc:1136-1179 | More input is read from where the reading stopped. |
| `HttpHeaders.Request.MakeHeader` | src/http/http.cc:397-412 | The loop prints the slots in use and the blank line. |
| `HttpHeaders.Request.ReadLine` | src/http/http.cc:1049-1091 | Takes one line and its end, or nothing. |
| `HttpHeaders.EndsAlike` | src/http/http.cc:1049-1091 | A line may end with CR LF, LF CR, or one of the two that the other does not follow: it is read alike. |
| `HttpHeaders.AddHeader` | src/http/http.cc:916-981 | The first free slot is filled, unless the header is empty or no slot is free; a key with a line end and a value with a line end not followed by a space or tab are refused. |
| `HttpHeaders.ValidExactly` | src/http/http.cc:899-914 | A value is taken exactly if every run of line ends in it is followed by a space or a tab. |
| `HttpHeaders.FullDrops` | src/http/http.cc:916-948 | Behind 35 headers a further one is dropped. |
| `HttpHeaders.BadLineCorrupts` | src/http/http.cc:1136-1179 | A line without a colon, and a continuation before any header, make the block corrupted. |
| `HttpHeaders.SkipsSpaces` | src/http/http.cc:1163-1170 | The spaces behind the colon are skipped, all of them and nothing else. |
| `HttpHeaders.AppendToLast` | src/http/http.cc:1093-1134 | A continuation goes to the last header, but to the first one when all slots are taken. |
| `HttpHeaders.ContinuesTheLast` | src/http/http.cc:1093-1134 | The last header is the one continued exactly if a slot is free. |
| `HttpHeaders.FullGoesToFirst` | src/http/http.cc:1093-1134 | A continuation line behind 35 printed headers changes the first one. |

## Left out

- The parent of the root of the timer tree is not required to be null: deletion leaves it stale, and nothing reads it.
- Timer keys and clock values are unbounded integers; their 64-bit width and the width of `abs` in event_timer_add are not modelled. The clock is read once per call and given as a parameter.
- What an event handler does besides arming timers later than now is not modelled.
- Sizes and addresses of the shared-memory allocator are unbounded: wrap-around of size_t, mmap, null pointers and shs_shm_strdup, calloc and dump are left out. Struct sizes are those of 64-bit pointers.
- Shmem.Shmem.FreeBlock: addresses that are not behind the header of a block are left out, because the source reads whatever memory is there.
- The lists of the shared-memory allocator are sequences in `Shmem`; `IntrusiveQueue` proves the macros that relink them, in place, to compute the same operations.
- queue_add_queue, queue_split, queue_middle and queue_sort are not used by the allocator.
- Slabs.Manager.Alloc: the backing allocator is arbitrary (each request is granted or refused at will), and the addresses it grants are only told apart, not placed.
- The slab statistics are unbounded integers: where free_size sinks below zero, size_t wraps.
- Creating and releasing a slab manager, apart from the length of its class table.
- Closing pipes and watchers, failed writes to a pipe other than a full one, and the events that drive them.
- Pausing and resuming the service at queue thresholds, invocation statistics and parameters, and how a module is found: the model knows only whether it is.
- The HTTP layer below a request calls back exactly once for a request it accepted; connections and servers are not modelled.
- Host statistics and the clock behind CheckAlive: which slaves have failed and which are alive are inputs of each attempt.
- HostGroups.HostGroup.HashInit: the hash function is a parameter, and a group without masters is not initialised.
- HostGroups.HostGroup.Master: hashes that would index past the vector are excluded by the condition that `HashRing.StaysInBounds` characterises.
- The macro lines of the DES rounds are written as a loop over the key pointer.
- pool_reset, pool_calloc and pool_memalign; the list of large areas is a sequence, whose nodes are regions of the pool.
- Locks are atomic sections; 32-bit counters of the connection pools are unbounded.
- Parsing and printing of dates as text, and time_update.
- The first line of a message, bodies, chunked coding and trailers; a printed header line beyond the line buffer of 4096 bytes.
- HttpHeaders.HeadersReturn: does not cover continuation lines, which the printer never makes.
- Memory that runs out while a line or a continuation is copied.
- Array, list, lock, hash and UTF-8 functions, formatted printing, configuration, logging, processes and sockets.
