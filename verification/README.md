# pgagroal in Dafny

A model of the parts of pgagroal that are hardest to get right, with proofs of what they
promise. `dafny verify dfyconfig.toml` checks all of it.

## What is modelled

**The adaptive radix tree** (`src/libpgagroal/art.c`). `RadixTree`, `RadixDelete`,
`RadixOrder` and `RadixMap` describe the tree as a value: leaves, and inner nodes with a
prefix length, at most ten stored prefix bytes and a map from bytes to subtrees. The
invariant `Good` says that all keys below a node start with the full path to it, that the
stored bytes are the first min(10, length) of the prefix, and that every inner node has two
children at least. `ArtLayout`, `ArtSorted`, `ArtWide`, `ArtNode` and `ArtShrink` are the four
node layouts, changed in place, as implementations of one map from bytes to children, and
`ArtRuns` follows a node through any series of changes.
`ArtHeap`, `ArtRead`, `ArtInsert`, `ArtDelete`, `ArtWalk`, `ArtIterator` and `ArtMap` are the
nodes on the heap: each operation is proved to leave nodes that own each other and stand for
the tree the operation on values gives, and `ArtMap.Art` is the map the rest of pgagroal uses.
Values are opaque integers. The arrays inside a node are sequence fields.

**The hand-over of descriptors** (`src/main.c`, `src/libpgagroal/pool.c`). `Handover` is the
state machine: main's descriptor table, its known entries and generations, the slots in
shared memory, and steps for TRANSFER, KILL, GET_FD, stores by workers, and files main opens
for itself. Messages are arbitrary, so every delay, reordering, loss and replay is a run.
`Record` says what the messages mean without descriptor numbers, and the invariant ties the
two together. `HandoverSafety` has what follows for every run; `HandoverMain` has the
callbacks over arrays, proved against the steps. A run may have fewer than 2^63 - 1 events, so
the counter does not reach the pending mark. The kernel gives a file that main opens the lowest free
number; main has fewer than base files of its own, so they stay below the range of the slots
(`Handover.OwnFilesStayBelow`), as `src/include/pool.h` lines 63-68 intends. It gives a received
descriptor any free number. `HandoverSteps` has a TRANSFER in the small steps main takes, with
stores of workers between them, reduces runs of these to runs of whole steps, and says for runs
with lost descriptors and overwritten slots when main stays in order. `HandoverWire` follows a
broken KILL from the worker's writes to main's open files.

**The flush alarm** (`src/main.c`). `FlushTimer` is the table, the rounding and the steps,
`FlushSafety` the invariant and what holds over runs, `FlushDeadlines` what arming and firing
mean in seconds, `FlushAlarm` the callbacks. Readings of
the clock, the number of active connections and whether the timer starts are parameters.
`arming` numbers the calls so that a firing can be traced to one of them.

**The deque** (`src/libpgagroal/deque.c`). `StableSort` is merge sort on sequences of nodes,
`DequeLinks` the relinking merge sort on the heap, `Deque` the list between its sentinels and
its iterator. `DequeThreads` is the shared deque: each call is its lock sections, one step
each, and steps of different threads interleave.

**The configuration editor** (`src/config.c`). `IniLines` is trimming, the kinds of lines and
the lines set writes; `IniFile` what get, set and del compute on a sequence of lines, for files
with any headers; `IniLaws` how they fit together, `IniLimits` files and names for which they do
not do what one would expect; `IniText` the three commands from text to text; `IniEditor` the
three scanners, set and del over an array of lines. The header that is searched for is cut to
127 characters and a line that is written to 4095, as the buffers of the source do. The laws
are for a set whose lines fit; those on texts are for names and values without a newline and
for files whose lines end in one and fit in the buffer.

**Key derivation** (`src/libpgagroal/aes.c`) is `AesCache`: the cryptographic library is a
record of functions, which calls succeed is a parameter, and the password hash is injective.

**The wire codec** (`src/libpgagroal/connection.c`) is `Wire`: the results of the kernel's
reads and writes are a parameter of any length and shape. Nothing follows a message on its socket.

## Where the code falls short of what one would expect

Each of these is a lemma with an input, and a lemma that says exactly when the property holds.

- `peek` and `peek_last` read the value after unlocking, so another thread may have freed it
  (`DequeThreads.PeekCanReadFreed`, `DequeThreads.PeekIsExact`).
- `holds_descriptor` has no test for zero, and is wrong between the moment main processes a
  KILL and the moment the killer clears the generation (`HandoverSafety.KilledBeforeTheFork`,
  `HandoverSafety.HoldsDescriptorIsExact`).
- GET_FD compares the number in shared memory and sends it later; in between it may change
  (`HandoverSafety.AnotherIsSent`, `HandoverSafety.ReplyNamesTheLiveTransfer`).
- A TRANSFER whose control message is lost makes main give away its own file 0, and a worker that
  writes the slot's fd between main's store and main's read makes main lose track of the descriptor
  (`HandoverSafety.LostControlMessage`, `HandoverSafety.OverwrittenReadBack`,
  `Handover.TransferNeedsArrival`, `HandoverSteps.AlwaysInOrder`).
- A file descriptor limit below 30 wraps the startup check, and the base may then not be positive
  (`HandoverMain.ChooseBase`, `HandoverSafety.BaseMustBePositive`).
- If the flush timer cannot be started, on arming or after the alarm, the deadlines of other
  databases stay without an alarm (`FlushSafety.StrandedByArming`, `FlushSafety.StrandedByAlarm`,
  `FlushSafety.FailedStart`, `FlushSafety.FailedRestart`, `FlushSafety.AlarmAfterRun`);
  names of 256 characters and more get several slots (`FlushSafety.LongNameIsArmedTwice`,
  `FlushSafety.OneSlotPerName`).
- del takes out the last line with a key while get and set use the first
  (`IniLimits.DuplicateKeySurvives`, `IniLaws.DelKeyRemoves`).
- A header is searched for in a shorter buffer than it is written from, so a section of 126 letters
  or more is not found again; and if a section stands in several parts, set and del work on the
  last and get on the first (`IniLimits.LongSectionIsLost`, `IniLimits.SplitSectionIsMissed`,
  `IniLaws.GetAfterSet`, `IniLaws.SetKeepsUnique`, `IniLimits.FirstPartSurvives`,
  `IniLaws.DelSectionHides`, `IniLimits.PartsAreJoined`, `IniLaws.DelSectionKeepsOthers`).
- set takes any key; get finds it exactly if the scanners can read it back, and another key may be
  set instead, or a section hidden (`IniLaws.GetAfterSet`, `IniLimits.BadKeySetsAnother`,
  `IniLimits.HeaderKeyHides`, `IniLaws.SetWithHeaderKey`, `IniLaws.SetKeepsOthers`).
- A failing first derivation step leaves its output in the cache while the cache is still
  marked valid for another password (`AesCache.StaleKeyAfterFailure`, `AesCache.StepKeepsSound`,
  `AesCache.RunIsSoundUnlessSpoiled`).
- Writing a KILL goes on after a failed field, so main may read the slot as the id of another
  message; it is decoded as a KILL exactly if nothing failed. Read as a TRANSFER it costs main its
  own file 0 (`Wire.BrokenSendIsMisread`, `Wire.IdOfBrokenKill`, `Wire.ReadAsTransfer`,
  `Wire.Transmit`, `HandoverWire.BrokenKill`).

## Model

| member | source | states |
|---|---|---|
| `ArtKeys.ToKey` | src/libpgagroal/art.c:472-490 | a key is the string with its terminating NUL, and holds no other NUL |
| `ArtKeys.PrefixOfKeyIsKey` | src/libpgagroal/art.c:472-490 | because of the NUL no key is a proper prefix of another |
| `ArtKeys.KeysDiverge` | src/libpgagroal/art.c:819-840 | two different keys that agree up to the depth part at an index inside both, so the fork never reads past the end of a key |
| `RadixTree.KeysShareTheFullPrefix` | src/libpgagroal/art.c:814-856 | all keys below a node start with the whole path to it, hidden prefix bytes included |
| `RadixTree.OneValuePerKey` | src/libpgagroal/art.c:795-812 | a key has one value |
| `RadixTree.MinLeafShowsThePrefix` | src/libpgagroal/art.c:1286-1338 | the leftmost leaf carries every prefix byte of the node, stored or hidden |
| `RadixTree.CheckPrefixIsExact` | src/libpgagroal/art.c:1250-1274 | with the help of one leaf, check_prefix finds where the key leaves the full prefix, beyond the tenth byte too |
| `RadixTree.SearchIsExact` | src/libpgagroal/art.c:1638-1677 | the optimistic descent finds a value for a key if and only if that key is stored with that value |
| `RadixTree.ExpandedLeafIsCorrect` | src/libpgagroal/art.c:819-840 | expanding a leaf for a different key keeps the invariant and stores exactly one more entry |
| `RadixTree.MovedDownIsGood` | src/libpgagroal/art.c:869-893 | a node moved below a split has the rest of its prefix, and its stored bytes are the first ten of that rest |
| `RadixTree.SplitIsCorrect` | src/libpgagroal/art.c:858-899 | a split anywhere in the prefix, stored or hidden, keeps the invariant and adds exactly the new key |
| `RadixTree.InsertIsCorrect` | src/libpgagroal/art.c:776-919 | insert keeps the invariant, adds or replaces exactly its key, and tells a new key from a replaced value |
| `RadixDelete.MergedIsGood` | src/libpgagroal/art.c:1370-1399 | merging a node into its last child joins both prefixes and the branch byte, hidden bytes included |
| `RadixDelete.RemoveChildIsCorrect` | src/libpgagroal/art.c:1340-1399 | removing a child keeps at least two children or merges, and loses exactly the leaves of that child |
| `RadixDelete.DeleteIsCorrect` | src/libpgagroal/art.c:922-979 | delete keeps the invariant, removes exactly its key if it is stored, and nothing otherwise |
| `RadixOrder.InOrderListsTheLeaves` | src/libpgagroal/art.c:981-1066 | the recursive walk meets exactly the stored entries |
| `RadixOrder.InOrderIsSorted` | src/libpgagroal/art.c:981-1066 | it meets them in strictly ascending byte order, so each once |
| `RadixOrder.PrefixSearchIsExact` | src/libpgagroal/art.c:397-470 | prefix search lists exactly the entries that start with the prefix, in order, though one leaf decides for a whole subtree |
| `RadixMap.PutRefinesMap` | src/libpgagroal/art.c:472-490 | insert is map update, size included |
| `RadixMap.RemoveRefinesMap` | src/libpgagroal/art.c:513-530 | delete is removal from the map, size included |
| `RadixMap.FindRefinesMap` | src/libpgagroal/art.c:332-341 | search is map lookup |
| `RadixMap.EntriesRefineMap` | src/libpgagroal/art.c:981-1066 | the walk lists the items of the map by ascending key |
| `RadixMap.FindPrefixIsExact` | src/libpgagroal/art.c:397-470 | the first min(max, n) of the n matches in order; -1 exactly for an empty tree or a limit that is not positive |
| `RadixMap.Run` | src/libpgagroal/art.c:472-543 | after any run of inserts, deletes and clears the tree represents the map the same run builds |
| `RadixMap.EveryRunRefinesMap` | src/libpgagroal/art.c:472-543 | after any run lookups, size, iteration and prefix search agree with that map |
| `ArtSorted.FindIndex` | src/libpgagroal/art.c:1193-1228 | the binary search returns the last key not above the byte, or -1 |
| `ArtSorted.AddSortedLookup` | src/libpgagroal/art.c:1092-1101 | shifting a key and a child in changes one lookup |
| `ArtSorted.RemoveSortedLookup` | src/libpgagroal/art.c:1360-1369 | shifting them out changes one lookup back to none |
| `ArtWide.Add48Lookup` | src/libpgagroal/art.c:1153-1164 | a child put in the first free slot of a fragmented Node48 changes one lookup |
| `ArtWide.FreeSlotExists` | src/libpgagroal/art.c:1155-1160 | a Node48 with fewer than 48 children has a free slot, so the scan for one ends inside the array |
| `ArtWide.Remove48Lookup` | src/libpgagroal/art.c:1423-1449 | freeing a Node48 slot changes one lookup to none |
| `ArtWide.Grow4KeepsLookups` | src/libpgagroal/art.c:1103-1116 | a Node4 copied into a Node16 keeps every lookup |
| `ArtWide.Grow16KeepsLookups` | src/libpgagroal/art.c:1133-1148 | a Node16 indexed into a Node48 keeps every lookup |
| `ArtNode.ToNode256` | src/libpgagroal/art.c:1166-1184 | the loop that spreads a Node48 into a Node256 keeps the map and the prefix |
| `ArtWide.Shrink16KeepsLookups` | src/libpgagroal/art.c:1401-1421 | a Node16 cut down to a Node4 keeps every lookup |
| `ArtShrink.DownToNode16` | src/libpgagroal/art.c:1423-1449 | the loop that packs a Node48 into a Node16 keeps the map and the prefix |
| `ArtShrink.DownToNode48` | src/libpgagroal/art.c:1451-1487 | the loop that packs a Node256 into a Node48 keeps the map and the prefix |
| `ArtNode.OkCounts` | src/libpgagroal/art.c:1186-1191 | the 8-bit count is the number of children, except that 256 children count as 0 |
| `ArtNode.GetChild` | src/libpgagroal/art.c:732-774 | every layout answers with the child its map has for the byte |
| `ArtNode.FirstFree` | src/libpgagroal/art.c:1155-1160 | the scan finds the first free slot |
| `ArtNode.AddChild` | src/libpgagroal/art.c:1068-1191 | whatever the layout and whether it grows, the node's map gains exactly this child, and prefix and invariant stay |
| `ArtNode.StoreChild` | src/libpgagroal/art.c:902-912 | writing through the child pointer replaces exactly that child |
| `ArtShrink.PackSorted` | src/libpgagroal/art.c:1433-1449 | the packing loop lists the used bytes in ascending order with their children |
| `ArtShrink.PackIndexed` | src/libpgagroal/art.c:1466-1487 | the indexing loop gives each used byte its position |
| `ArtShrink.RemoveFrom` | src/libpgagroal/art.c:1340-1487 | whatever the layout and whether it shrinks at 3, 12 or 37, the node's map loses exactly this child |
| `ArtRuns.ApplyAll` | src/libpgagroal/art.c:1068-1487 | calling add and remove in any series, through growing and shrinking, leaves a node that answers for every byte like the map with the same changes, and its count is the number of children modulo 256 |
| `ArtRead.FirstChild` | src/libpgagroal/art.c:1286-1338 | the child under the least byte |
| `ArtRead.Minimum` | src/libpgagroal/art.c:1286-1338 | the loop ends at the leftmost leaf of the tree the nodes stand for |
| `ArtRead.CheckPrefixPartial` | src/libpgagroal/art.c:1238-1248 | the number of stored prefix bytes that agree with the key |
| `ArtRead.CheckPrefix` | src/libpgagroal/art.c:1250-1274 | the number of prefix bytes, stored or not, that agree with the key |
| `ArtRead.Search` | src/libpgagroal/art.c:1638-1677 | the loop over nodes on the heap is the search of the tree they stand for |
| `ArtInsert.CommonPrefix` | src/libpgagroal/art.c:824-835 | the loop that fills the prefix of a new fork |
| `ArtInsert.ExpandLeaf` | src/libpgagroal/art.c:819-840 | a fork with the old leaf and the new one, as the tree on values has it |
| `ArtInsert.MoveDown` | src/libpgagroal/art.c:869-893 | the prefix of a node on the heap is shortened in place, from its own bytes or from the leftmost leaf |
| `ArtInsert.SplitNode` | src/libpgagroal/art.c:858-899 | the fork over the shortened node and the new leaf |
| `ArtInsert.AddLeaf` | src/libpgagroal/art.c:902-918 | a new child of a node, which is replaced by a larger one if it is full |
| `ArtInsert.InsertAt` | src/libpgagroal/art.c:776-919 | the nodes that are left own each other, and stand for what insert makes of the tree |
| `ArtDelete.JoinPrefixes` | src/libpgagroal/art.c:1381-1394 | the loops that join the prefix, the branch byte and the child's prefix in one buffer |
| `ArtDelete.MergeNode` | src/libpgagroal/art.c:1370-1399 | a node with one child left is replaced by that child with the joined prefix |
| `ArtDelete.DropChild` | src/libpgagroal/art.c:1340-1399 | what is left of a node stands for its tree without the child |
| `ArtDelete.DeleteInNode` | src/libpgagroal/art.c:922-979 | the nodes that are left stand for what delete makes of the tree |
| `ArtWalk.ChildrenInOrder` | src/libpgagroal/art.c:981-1066 | the loops of the four layouts all go by ascending byte |
| `ArtWalk.Iterate` | src/libpgagroal/art.c:981-1066 | the recursive walk with a callback that refuses more than max entries gives the first max of them, and says if it was stopped |
| `ArtWalk.SearchPrefix` | src/libpgagroal/art.c:424-469 | the descent on the heap gives the first max of the matches on the tree |
| `ArtMap.Art.Insert` | src/libpgagroal/art.c:472-490 | updates the map the object stands for; a missing key or type is refused and changes nothing |
| `ArtMap.Art.Delete` | src/libpgagroal/art.c:513-530 | removes the key from that map, if it is there |
| `ArtMap.Art.Clear` | src/libpgagroal/art.c:532-543 | empties it |
| `ArtMap.Art.Search` | src/libpgagroal/art.c:332-341 | looks it up |
| `ArtMap.Art.PrefixSearch` | src/libpgagroal/art.c:397-470 | the first matches in the list of the map's items in key order, and their number; -1 for an empty map or a limit that is not positive |
| `ArtIterator.SubtreesHoldTheLeaves` | src/libpgagroal/art.c:1537-1586 | the children of a node hold the leaves of the node |
| `ArtIterator.LevelByLevel` | src/libpgagroal/art.c:1537-1586 | the order of the queue is breadth-first: the leaves of a level come before everything below it, and the next level is the children in order |
| `ArtIterator.AsManyEntriesAsKeys` | src/libpgagroal/art.c:1516-1599 | the walk has as many entries as size says |
| `ArtIterator.Iterator.HasNext` | src/libpgagroal/art.c:1591-1599 | true exactly while some entry has not been returned |
| `ArtIterator.Iterator.Next` | src/libpgagroal/art.c:1507-1589 | returns an entry that has not been returned yet as long as there is one; returned and queued leaves together are always the tree, and what has been returned is a beginning of the breadth-first order; the loop ends |
| `Handover.StepKeepsInv` | src/main.c:2376-2564 | every step keeps known entries, generations and open descriptors in agreement with the transfers that are live |
| `Handover.EveryRunKeepsInv` | src/main.c:2376-2564 | the same for every run, with messages delayed, reordered, lost or repeated at will |
| `HandoverSteps.SmallStepsAreOne` | src/main.c:2384-2423 | however workers' stores fall between main's store of the fd, its reading back and the store of the generation, the state in the end is that of the single step with the stores before it and those to the slot's fd once more behind it |
| `HandoverSteps.FineRunIsRun` | src/main.c:2376-2564 | every run in small steps ends where a run of whole steps ends, so what holds after every run holds after it |
| `HandoverSteps.NotSeenTooEarly` | src/main.c:2419-2423 | in the middle of a TRANSFER no slot shows a generation but 0, the pending mark and that of its latest transfer before |
| `HandoverSteps.AlwaysInOrder` | src/main.c:2376-2564 | in a run with lost descriptors and overwritten slots memory and files agree at every point exactly if every TRANSFER main keeps has its descriptor and reads back its own store |
| `Handover.OwnFilesStayBelow` | src/include/pool.h:63-68 | a file main opens for itself gets the lowest free number, which is below the numbers of the slots while main has fewer than base files of its own |
| `Handover.TransferNeedsArrival` | src/main.c:2384-2423 | a kept TRANSFER leaves memory and descriptors in agreement exactly if its descriptor has arrived and main reads back the fd it has just stored |
| `HandoverSafety.FilesOfTransfer` | src/main.c:2384-2417 | main's open files after a TRANSFER, number by number, in every state and for every base |
| `HandoverSafety.MemoryOfTransfer` | src/main.c:2419-2423 | what main remembers and publishes after a TRANSFER, slot by slot, in every state |
| `HandoverSafety.LostControlMessage` | src/libpgagroal/connection.c:248-276 | a TRANSFER whose control message is lost reads as descriptor 0, and main's own file 0 is taken for the slot's |
| `HandoverSafety.OverwrittenReadBack` | src/main.c:2419-2423 | a slot whose fd a worker overwrites between the store and the read leaves main with a descriptor without a known entry |
| `HandoverSafety.HeldAreTheKnownSlots` | src/main.c:2382-2495 | the server descriptors of main are exactly base + slot for the slots with a known entry |
| `HandoverSafety.BaseMustBePositive` | src/main.c:2399-2420 | with a base that is not positive a descriptor can be held without a known entry |
| `HandoverSafety.HeldOnceWhileLive` | src/main.c:2382-2495 | each received connection is held at one number while its transfer is live, and at none otherwise |
| `HandoverSafety.ReleasedForGood` | src/main.c:2382-2495 | a connection main has closed or replaced never comes back |
| `HandoverSafety.KillIsExact` | src/main.c:2467-2495 | KILL acts exactly on the generation that is live in its slot; stale, repeated, zero and pending generations change nothing |
| `HandoverSafety.KillChanges` | src/main.c:2467-2495 | in every state a KILL acts exactly on a positive generation that main knows the slot under: the number main knew is closed and the slot's entries become 0; shared memory, the counter and every other slot stay |
| `HandoverSafety.KillForgetsItsSlot` | src/main.c:2467-2495 | the same after every run, for the live generation |
| `HandoverSafety.KnownGenerationsAreDistinct` | src/main.c:2419-2423 | known generations are pairwise distinct and not above the counter |
| `HandoverSafety.LatestOnlyAdvances` | src/main.c:2419-2423 | later events replace the latest transfer of a slot only by a later one |
| `HandoverSafety.ForkInherits` | src/include/pool.h:44-56 | a process forked at counter G holds the slot's descriptor exactly when 0 < generation <= G, if that generation's KILL was not processed before the fork; without that proviso, exactly when its own known entry is set as well |
| `HandoverSafety.HoldsDescriptorIsExact` | src/libpgagroal/pool.c:2221-2230 | when the test generation <= G is right |
| `HandoverSafety.KilledBeforeTheFork` | src/libpgagroal/pool.c:703-840 | a run in which it is wrong: the KILL is processed and the generation not yet cleared |
| `HandoverSafety.ReplyNamesTheLiveTransfer` | src/main.c:2527-2562 | a positive reply carries the live transfer's generation; the descriptor sent with it is that transfer's exactly if the number in shared memory has not changed since it was compared |
| `HandoverSafety.ReplyIs` | src/main.c:2527-2562 | the answer in every state: none for a bad slot, generation 0 without a descriptor if shared memory does not name the known number, and a descriptor only with a positive generation |
| `HandoverSafety.AnotherIsSent` | src/main.c:2527-2562 | a run and a number in shared memory for which the reply names one connection and sends another |
| `HandoverSafety.FetchedIsTheExpected` | src/libpgagroal/pool.c:2153-2200 | a worker that gets the generation it expected is sent the connection of that generation exactly if the number in shared memory is still the one main compared |
| `HandoverMain.ChooseBase` | src/main.c:1088-1109 | the startup check in unsigned arithmetic: with a limit of 30 or more all numbers are positive and below it; the base is the limit minus the slots, but at most 1024; otherwise exactly if there are fewer slots than the limit, and else the base is not positive |
| `HandoverMain.Main.Place` | src/main.c:2405-2417 | a descriptor is moved to its slot's number, replacing what is there, or closed with nothing else changed |
| `HandoverMain.Main.Transfer` | src/main.c:2376-2423 | the new state is the step's, whatever the base, the number received and the fd read back; from an invariant state, with the descriptor arrived and the slot untouched, the invariant is kept and every close hits an open number |
| `HandoverMain.Main.Kill` | src/main.c:2467-2495 | the new state is the step's, for every base; from an invariant state the invariant is kept and the descriptor it closes is open |
| `HandoverMain.Main.GetFd` | src/main.c:2527-2562 | the reply for the state main is in, with the shared number read twice |
| `HandoverMain.Child.CloseInherited` | src/libpgagroal/pool.c:846-863 | the loop closes exactly the positive numbers among the known entries other than the one in use, and clears the entries |
| `HandoverMain.InheritedAreTheBackends` | src/libpgagroal/pool.c:846-863 | for a child of a main in an invariant state those are exactly its server descriptors other than the one in use |
| `FlushTimer.DelayIsAccurate` | src/main.c:3296-3302 | the delay is less than a millisecond off a deadline to come, and 1 ms for one that has passed |
| `FlushTimer.Earliest` | src/main.c:3274-3288 | the least of the deadlines in use |
| `FlushTimer.FirstNamed` | src/main.c:3221-3228 | the first slot in use for the database |
| `FlushSafety.StepKeepsTable` | src/main.c:2954-3010 | arming and firing keep the table in order, whether the timer starts or not |
| `FlushSafety.StepKeepsAlarm` | src/main.c:3266-3308 | a step that sets the alarm anew leaves it right exactly if the timer starts or no slot is in use; other steps leave it as right as it was |
| `FlushSafety.StepKeepsInv` | src/main.c:2954-3010 | arming and firing keep all of the invariant, if the timer starts and the name fits |
| `FlushSafety.EveryRunKeepsTable` | src/main.c:2954-3010 | after every run, timers that fail included: one slot per database, nothing fired early or twice |
| `FlushSafety.AlarmAfterRun` | src/main.c:3266-3308 | after every run the alarm is right exactly if the last event that set it could start the timer or left no slot in use |
| `FlushSafety.EveryRunKeepsInv` | src/main.c:3211-3308 | after every run in which the timers start the alarm is started exactly while a slot is in use, and set within 1 ms of the earliest deadline |
| `FlushSafety.ArmReplacesTheDeadline` | src/main.c:3211-3264 | arming again replaces the deadline of that database and no other; with a full table nothing changes |
| `FlushDeadlines.ArmSetsTheDeadline` | src/main.c:3211-3264 | arming picks the first slot of the name, or the first free one, and sets its deadline as many seconds after now as asked for; if the timer does not start the slot is given up; without a slot or for no time nothing changes |
| `FlushDeadlines.AlarmFreesTheDue` | src/main.c:2954-3010 | the callback frees exactly the slots whose deadline has come and starts the timer while any is left |
| `FlushDeadlines.FiringsCount` | src/main.c:2965-2986 | each of them once |
| `FlushDeadlines.FlushesCount` | src/main.c:2988-3002 | as many flushes as deadlines that came while there were active connections |
| `FlushDeadlines.NotBeforeItsTime` | src/main.c:2954-3010 | over every run: what fires was asked for by a call of the run, for its name, and fires no sooner than as many seconds after that call as it asked for |
| `FlushSafety.AlarmFiresTheDue` | src/main.c:2969-3004 | the callback fires every deadline that has come and no other |
| `FlushSafety.GoneForGood` | src/main.c:2982-2986 | an arming that fired or was replaced never fires later |
| `FlushSafety.FailedStart` | src/main.c:3252-3259 | if the timer does not start, the alarm is right exactly if no other database is waiting |
| `FlushSafety.FailedRestart` | src/main.c:2954-3010 | if the timer does not start again after the alarm, the alarm is right exactly if every deadline had come |
| `FlushSafety.StrandedByArming` | src/main.c:3252-3259 | a run in which a failed arming leaves another database without an alarm |
| `FlushSafety.StrandedByAlarm` | src/main.c:2954-3010 | a run in which a failed restart leaves another database without an alarm |
| `FlushSafety.FlushesTheActive` | src/main.c:2982-3002 | a database is flushed exactly if its deadline went off while there were active connections |
| `FlushSafety.OneSlotPerName` | src/main.c:3246-3248 | arming keeps names distinct exactly if no other slot holds the stored name |
| `FlushSafety.LongNameIsArmedTwice` | src/main.c:3246-3248 | a name that does not fit gets two slots |
| `FlushAlarm.Timeouts.Rearm` | src/main.c:3266-3308 | the loop and the watcher calls set the alarm of the abstract timer |
| `FlushAlarm.Timeouts.Choose` | src/main.c:3221-3239 | the two scans choose the slot of the database or a free one |
| `FlushAlarm.Timeouts.Arm` | src/main.c:3211-3264 | the new table and alarm are those of the step, failure included |
| `FlushAlarm.Timeouts.Alarm` | src/main.c:2954-3010 | the new table, the alarm, and the databases flushed, for any number of active connections at each slot |
| `StableSort.TagOrderIsPreorder` | src/libpgagroal/deque.c:885-897 | the order of the tags is a total preorder with NULL last, and equivalent means equal tags |
| `StableSort.TagOrderIsDictionary` | src/libpgagroal/deque.c:885-897 | of two tags the smaller is the proper prefix, or the one with the smaller byte at the first position where they differ; neither is smaller exactly if they are equal |
| `StableSort.MergeIsStable` | src/libpgagroal/deque.c:799-884 | merging keeps equivalent nodes in order, those of the first list first |
| `StableSort.MergeSortIsStableSort` | src/libpgagroal/deque.c:779-883 | sorting gives a sorted, stable permutation of the same nodes, for any total preorder |
| `StableSort.SortedIsInOrder` | src/libpgagroal/deque.c:346-373 | after sorting by tag every two nodes are in dictionary order with NULL last, and after sorting by a callback that is a total preorder the callback puts none after a later one |
| `DequeLinks.MergeLists` | src/libpgagroal/deque.c:799-883 | relinking two lists node by node gives the merged list, with links that are each other's inverse |
| `DequeLinks.GetMiddle` | src/libpgagroal/deque.c:766-777 | the slow pointer ends at position n / 2 |
| `DequeLinks.SortList` | src/libpgagroal/deque.c:779-797 | the recursion on relinked halves ends and gives the sorted list |
| `Deque.List.Offer` | src/libpgagroal/deque.c:504-524 | appends a node; a value without a type is not added |
| `Deque.List.Poll` | src/libpgagroal/deque.c:161-195 | takes the first item, or nothing from an empty deque |
| `Deque.List.PollLast` | src/libpgagroal/deque.c:197-231 | takes the last item |
| `Deque.List.Peek` | src/libpgagroal/deque.c:233-257 | shows the first item |
| `Deque.List.PeekLast` | src/libpgagroal/deque.c:259-283 | shows the last item |
| `Deque.List.Unlink` | src/libpgagroal/deque.c:750-764 | takes one node out and joins its neighbours |
| `Deque.List.Find` | src/libpgagroal/deque.c:609-629 | the first node with the tag; an empty tag finds nothing |
| `Deque.WithoutLeavesTheOthers` | src/libpgagroal/deque.c:115-135 | what removing a tag leaves are the nodes with another tag or none |
| `Deque.WithoutKeepsTheOrder` | src/libpgagroal/deque.c:115-135 | and they keep their order |
| `Deque.List.RemoveTag` | src/libpgagroal/deque.c:115-135 | removes every node with the tag, keeps the others in order and counts |
| `Deque.List.Clear` | src/libpgagroal/deque.c:137-152 | removes every node |
| `Deque.List.Sort` | src/libpgagroal/deque.c:346-373 | the nodes between the sentinels are the sorted ones, in dictionary order of the tags or in the order of the callback; every link has its inverse, and size is unchanged |
| `Deque.Iterator.Next` | src/libpgagroal/deque.c:477-492 | steps to the next node until there is none |
| `Deque.Iterator.Remove` | src/libpgagroal/deque.c:447-465 | removes the node it stands on and steps back |
| `DequeThreads.StepKeepsInv` | src/libpgagroal/deque.c:161-283 | every lock section of every thread keeps the list equal to what the history makes of an empty deque, and size equal to its length |
| `DequeThreads.RunsLinearize` | src/libpgagroal/deque.c:161-283 | every interleaving of add, poll, poll_last, peek and size has a legal sequential history in which each call sits between its beginning and its end |
| `DequeThreads.AnswersInOrder` | src/libpgagroal/deque.c:161-283 | what each call of a history returns, told by the calls before it: poll and peek the element added first of those that are there, poll_last and peek_last the one added last, nothing exactly if there is none, and size their number |
| `DequeThreads.EveryCallReturnsOnce` | src/libpgagroal/deque.c:161-283 | in every run each call returns at most once, and one that is still going on has not returned |
| `DequeThreads.RealTimeOrder` | src/libpgagroal/deque.c:161-283 | in every run a call that had returned before another began comes first in the history |
| `DequeThreads.NothingLostOrRepeated` | src/libpgagroal/deque.c:161-283 | what was added is what was delivered plus what is left: each element is delivered at most once |
| `DequeThreads.DeliveredOnce` | src/libpgagroal/deque.c:161-231 | in every run no two polls that returned carry the same element |
| `DequeThreads.PeekIsExact` | src/libpgagroal/deque.c:233-283 | peek returns the element it saw exactly if that element is still in the deque when its value is read, after unlocking |
| `DequeThreads.PeekCanReadFreed` | src/libpgagroal/deque.c:233-283 | a run in which it reads a value another thread has freed |
| `IniLines.Trim` | src/config.c:681-704 | the two loops cut white space off both ends |
| `IniLines.ShownIsTheValue` | src/config.c:772-796 | what get prints of a written value is the value up to its first comment sign; a trimmed value without one is unchanged, whatever the comment |
| `IniLines.PairLineParses` | src/config.c:926-938 | the line set writes is a pair with the key and the text it was given |
| `IniLines.HeaderLineParses` | src/config.c:1009-1012 | the header the scanners see on the line set writes is the section's up to its first bracket |
| `IniLines.PairLineText` | src/config.c:926-938 | the text of a pair line, with and without a comment, character by character |
| `IniLines.HeaderLineText` | src/config.c:1009-1012 | the text of a header line |
| `IniLines.SpaceIs` | src/config.c:682-704 | white space is one of six characters |
| `IniLines.ShownIsPlain` | src/config.c:776-796 | what get prints has no comment sign, and a trimmed text without one is printed as it is |
| `IniLines.ShortSections` | src/config.c:835-846 | a section of up to 125 characters without a bracket is searched for as it is |
| `IniLines.LongSections` | src/config.c:835-846 | of a longer one the first 127 characters of the header are searched for |
| `IniLines.WrittenIsSearched` | src/config.c:835-846 | the header that is written is the one that is searched for in a 128-byte buffer exactly if the section has at most 125 characters and no bracket, or its first bracket is the 126th of more |
| `IniLines.ParsedHeaderIsHeader` | src/config.c:743-764 | every header a scanner sees has at most one closing bracket, its last character, and does not end in white space |
| `IniLines.HeaderKeys` | src/config.c:926-938 | the line set writes is taken for a header exactly if the trimmed key starts with a bracket |
| `IniFile.GetIsFirst` | src/config.c:713-815 | what get shows is the first line with the key between the first header of the section and the next other header |
| `IniFile.WhereInForce` | src/config.c:866-922 | a position is in the section exactly if it is behind its last header and before the next one |
| `IniFile.PairElsewhere` | src/config.c:766-801 | a line that is no header matters only to lookups of its key in its section |
| `IniLaws.GetAfterSet` | src/config.c:828-1025 | for every file: get after set returns the value just set exactly if the key is one that a line can have and get comes to the line, which is a condition on the file before; otherwise it finds nothing; and set fails exactly if there is no line with the key and no room |
| `IniLaws.WhenSetFails` | src/config.c:926-1000 | set fails exactly if no line has the key in the section and there is no room: for one line if the section is there, for more otherwise |
| `IniLaws.SetReplacesOneLine` | src/config.c:926-944 | a key that is there: its first line is written anew and every other line stays |
| `IniLaws.SetInsertsOneLine` | src/config.c:946-992 | a section that is there: one line is added to the last one, behind its last line that is not blank, and every other line stays |
| `IniLaws.SetAppendsASection` | src/config.c:993-1025 | a section that is not there: the lines stay, and an empty line, the header and the pair follow |
| `IniLaws.DelTakesOut` | src/config.c:1196-1215 | del fails exactly if the section or the key is not there; otherwise it takes out the last line with the key, or the last section up to the next header, and every other line stays |
| `IniLaws.UniqueIsReached` | src/config.c:828-1025 | with unique section headers get comes to the line exactly if the section is there or its header is searched for as it is written |
| `IniLaws.BadNamesAreNeverFound` | src/config.c:731-801 | nothing is ever found under a section whose cut header no line can have, or a key that is not trimmed, has an equals sign or starts like a comment or header |
| `IniLaws.GoodNamesCanBeFound` | src/config.c:731-801 | under every other name some file has a value |
| `IniLaws.SetKeepsOthers` | src/config.c:828-1025 | set with a key that is not taken for a header changes only lookups of its key, or of the key seen on its line, in the section the line ends up in |
| `IniLaws.SetWithHeaderKey` | src/config.c:926-938 | what every lookup gives after set with a key that is taken for a header: the section goes on under that header, and its own keys behind it are lost to get |
| `IniLaws.SetKeepsUnique` | src/config.c:828-1025 | set keeps headers unique exactly if the section was found or its written header was not there yet; and the lines stay within the limit |
| `IniLaws.DelUndoesInsertion` | src/config.c:946-992 | deleting a key just inserted into a section restores the file line by line |
| `IniLaws.DelKeyRemoves` | src/config.c:1126-1183 | a deleted key is gone exactly if it was there once; otherwise get shows what it showed before |
| `IniLaws.DelKeyKeepsOthers` | src/config.c:1126-1215 | deleting a key changes no other lookup |
| `IniLaws.DelSectionHides` | src/config.c:1126-1215 | after deleting a section get finds what it finds in the file before its last header: nothing, if the header was there once |
| `IniLaws.DelSectionKeepsOthers` | src/config.c:1126-1215 | deleting a section changes a lookup in another exactly if it was what made get give up there and the other one goes on behind it with the key |
| `IniLaws.DelKeepsUnique` | src/config.c:1126-1215 | del keeps headers unique |
| `IniLimits.LongSectionIsLost` | src/config.c:835-846 | a section of 126 letters: get does not find what set wrote, and a second set writes the header again |
| `IniLimits.SplitSectionIsMissed` | src/config.c:866-922 | a section in two parts: set writes to the second and get gives up before it |
| `IniLimits.DuplicateKeySurvives` | src/config.c:1154-1174 | a file in which a deleted key is still found |
| `IniLimits.FirstPartSurvives` | src/config.c:1196-1215 | a file in which a key of a deleted section is still found |
| `IniLimits.PartsAreJoined` | src/config.c:1196-1215 | a file in which deleting a section makes a key of another one appear |
| `IniLimits.HeaderKeyHides` | src/config.c:926-938 | a key that looks like a header hides the keys of another section |
| `IniLimits.BadKeySetsAnother` | src/config.c:926-938 | a key with an equals sign sets another key |
| `IniText.ReadBack` | src/config.c:850-859 | lines written to the file are read back as they were |
| `IniText.PiecesAre` | src/config.c:850-859 | one read takes at most 4095 characters, up to and with a newline, and less without one only at the end of the file |
| `IniText.WriteBack` | src/config.c:850-859 | a text that is read and written back is the same text |
| `IniText.SetKeepsLines` | src/config.c:850-1040 | the file set writes is read back as the lines set made |
| `IniText.DelKeepsLines` | src/config.c:1119-1215 | the same for del |
| `IniText.GetInAfterSetIn` | src/config.c:713-1040 | get after set from text to text: the value exactly if the key is one that a line can have and get comes to the line; and when set fails |
| `IniText.SetInKeepsOthers` | src/config.c:713-1040 | every other lookup in the text is unchanged |
| `IniText.DelInUndoesSetIn` | src/config.c:828-1215 | deleting a key just inserted restores the text |
| `IniText.DelInRemoves` | src/config.c:1095-1215 | what get shows of a key after it or its section has been deleted from the text |
| `IniEditor.ConfigGet` | src/config.c:713-815 | the scan returns the lookup |
| `IniEditor.ConfigLines.ScanForSet` | src/config.c:866-922 | for every file the loop ends with the last section with the header, its end and the first line with the key in any of them |
| `IniEditor.ConfigLines.ScanForDel` | src/config.c:1126-1175 | the same with the last line with the key |
| `IniEditor.ConfigLines.InsertLine` | src/config.c:970-992 | the shifting loop makes room for one line |
| `IniEditor.ConfigLines.Set` | src/config.c:828-1025 | the lines after set, or failure with the lines unchanged |
| `IniEditor.ConfigLines.Del` | src/config.c:1095-1215 | the lines del writes back, or failure |
| `AesCache.StepKeepsSound` | src/libpgagroal/aes.c:229-255 | a cached key stays the master key of its password, exactly for the steps other than a failing derivation for another password |
| `AesCache.WhenDerived` | src/libpgagroal/aes.c:194-281 | a derivation succeeds exactly for a password below 8192 bytes, a salt that is set, modes 1 to 3 and library calls that work, where the first step is not needed for the cached password |
| `AesCache.DerivedIsDirect` | src/libpgagroal/aes.c:194-281 | with a sound cache key and iv are, in this order, the bytes of two-step PBKDF2 (section 5.2 of RFC 8018): 600,000 iterations with the master salt for 64 bytes, and one with the salt; the key has 32, 24 or 16 bytes and the iv 12 |
| `AesCache.DeriveCaches` | src/libpgagroal/aes.c:229-255 | what a derivation leaves in the cache, for every outcome of the calls |
| `AesCache.SecondTimeIsCached` | src/libpgagroal/aes.c:229-255 | a second derivation for the same password gives the same without the first step |
| `AesCache.RunIsSoundUnlessSpoiled` | src/libpgagroal/aes.c:56-290 | after every run the cache is sound exactly if no first step has failed, since the password was cached, and left something that is not its master key |
| `AesCache.EveryRunDerivesDirectly` | src/libpgagroal/aes.c:56-290 | after every run of salt changes, clears and derivations a result has the bytes of two-step PBKDF2 under the current salt, except for the cached password of a spoiled cache, whose second step starts from what was left behind |
| `AesCache.StaleKeyAfterFailure` | src/libpgagroal/aes.c:238-255 | a run in which a failing first step leaves a wrong key in the cache |
| `AesCache.ClobberedHitIsWrong` | src/libpgagroal/aes.c:238-255 | what the next hit then returns |
| `AesCache.LayoutSplits` | src/libpgagroal/aes.c:118-129 | salt, iv, ciphertext and tag are taken out of the layout as they were put in |
| `AesCache.EncryptedIs` | src/libpgagroal/aes.c:84-144 | the output is 16 bytes of salt, 12 bytes of iv, the ciphertext and 16 bytes of tag, sealed with the key and iv of the two steps and the cipher of the mode; without a salt or with a failing cipher there is none |
| `AesCache.DecryptedIs` | src/libpgagroal/aes.c:146-191 | fewer than 44 bytes are refused; otherwise what is between the first 28 and the last 16 bytes is opened with the key for the first 16 and the iv behind them |
| `AesCache.DecryptInvertsEncrypt` | src/libpgagroal/aes.c:84-191 | decrypt inverts encrypt in each of the three modes, across cache states with the same master salt |
| `AesCache.KeyCache.SetMasterSalt` | src/libpgagroal/aes.c:56-82 | a new salt or none clears the cache, the same salt keeps it |
| `AesCache.KeyCache.ClearCache` | src/libpgagroal/aes.c:283-290 | forgets the key and the hash, keeps the salt |
| `AesCache.KeyCache.DeriveKeyIv` | src/libpgagroal/aes.c:193-281 | the result and the new cache for every outcome of the library calls |
| `AesCache.KeyCache.Encrypt` | src/libpgagroal/aes.c:84-144 | the output layout, and the outcome when no salt can be drawn, the key not derived or the text not sealed |
| `AesCache.KeyCache.Decrypt` | src/libpgagroal/aes.c:146-191 | the input layout; short input is refused |
| `Wire.Int32RoundTrip` | src/libpgagroal/utils.c:337-342 | a 32-bit number in network byte order reads back as it was |
| `Wire.NetworkOrder` | src/libpgagroal/utils.c:337-342 | the most significant byte goes first, and a negative number as its two's complement |
| `Wire.Int32BackTrip` | src/libpgagroal/utils.c:413-418 | and any four bytes are what their number is written as |
| `Wire.GenerationRoundTrip` | src/libpgagroal/connection.c:339-385 | a 64-bit generation sent as two halves reads back as it was, negative numbers included |
| `Wire.ReadComplete` | src/libpgagroal/connection.c:433-490 | succeeds exactly if the field comes in with at most 100 short reads; then all bytes are in place; at most 101 reads other than EAGAIN |
| `Wire.CompleteAt` | src/libpgagroal/connection.c:433-490 | the short reads of a field that completes are the calls that moved bytes before the one that brings its last bytes |
| `Wire.EndOfComplete` | src/libpgagroal/connection.c:433-490 | a field that completes has such a call |
| `Wire.OutUntilError` | src/libpgagroal/connection.c:503-557 | a series of writes that breaks off has got out the bytes moved before its first error |
| `Wire.WriteSocket` | src/libpgagroal/connection.c:503-557 | what is on the wire is the first bytes of the buffer, as many as the kernel took before an error, and all of it if and only if the write succeeds |
| `Wire.SendKill` | src/libpgagroal/pool.c:725-745 | id, slot and generation are each written whether or not the one before failed: the wire holds as much of each as its writes got out, and all 16 bytes exactly on success |
| `Wire.ReceiveKill` | src/main.c:2377-2478 | the message is decoded exactly if it is a KILL and every field arrives; what follows stays on the stream |
| `Wire.KillRoundTrip` | src/libpgagroal/connection.c:293-385 | the bytes of a KILL decode to its slot and generation |
| `Wire.IdOfBrokenKill` | src/libpgagroal/pool.c:725-745 | the id main reads when n bytes of the id and then the whole slot are out: KILL for all four, the slot for none, and otherwise the slot without its last n bytes |
| `Wire.ReadAsTransfer` | src/include/connection.h:44-50 | a broken KILL is read as a TRANSFER exactly for the slots below 256^n |
| `Wire.BrokenSendIsMisread` | src/libpgagroal/pool.c:725-745 | kernel results of a send for which main reads the slot as the message's id |
| `Wire.ReceiveTransfer` | src/libpgagroal/connection.c:223-276 | a TRANSFER is read exactly if id and slot arrive and one more read gets something; without an attached descriptor its number is 0 |
| `HandoverWire.BrokenKill` | src/libpgagroal/pool.c:725-745 | from the worker's writes to main's open files: a KILL whose id breaks is taken for a TRANSFER exactly if the id reads as 0, and then main's own file 0 is moved to the slot's number or closed |
| `HandoverWire.Slot0IsTransferred` | src/libpgagroal/pool.c:725-745 | so it is for slot 0 wherever the id breaks, and the slot main then reads is 0 again for generations below 2^32 |
| `Wire.Transmit` | src/libpgagroal/connection.c:116-160 | under any short writes, short reads, EAGAIN and failed writes, a KILL main decodes is the one the worker sent, and main decodes one exactly if every field went out and came in |

## Left out

- `pgagroal_art_iterator_remove`: dropping the count back to zero queues the root again, so the iterator is modelled without removal.
- The counting loop at the head of `node256_remove_child`: its result is not used.
- 32-bit lengths and counts: key lengths, `size` of the tree and of the deque and the iterator's count are unbounded integers; the 8-bit child count is modelled with its wrap-around.
- Value ownership, destroy callbacks, freeing of nodes and string rendering in art.c and deque.c.
- The notification of clients in the transaction pipeline, RETURN and CLIENT_DONE messages, and accepting the socket.
- Overflow of the generation counter and of the deadline's seconds.
- The flush itself: which databases are flushed is modelled, the forked process is not.
- What main does with a broken KILL that it takes for a message other than KILL and TRANSFER.
- Deque iterators, tag lookup and tag removal are single-threaded: they take no lock in the source.
- Deque.List.Poll: the second test for an empty list is shown to be dead without other threads and is only in the threaded model.
- IniText.GetInAfterSetIn: not for files without a final newline or with lines longer than the buffer, and not for a pair line that does not fit, which set writes without its newline.
- IniText.SetInKeepsOthers: not for files of more than MAX_LINES lines, of which set and del write back the first MAX_LINES only.
- Files with NUL characters, writing the temporary file and renaming it, and running out of memory in the configuration editor.
- Multi-threaded use of the key cache: the salt is shared by all threads and the key is not.
- `pgagroal_encrypt_buffer` and `pgagroal_decrypt_buffer`.
- The TLS branches of reading and writing, sleeping between reads, and passing the descriptor itself over the socket.
- Pool, message parser, TLS records, JSON, UTF-8, command line tools, compression, startup, signals and logging.
