# Verification of the workspace tools

A Dafny model of the parts of the workspace tools where an error loses data or hangs a tool, with
proofs about every input, every run and every interleaving. One module stands for one component:

- `RingIndex`, `PathWorkStealingQueue.dfy`, `QueueProtocol`, `QueueSlots`, `QueueAftermath`: the lock-free
  work-stealing queue of ws_stat, as a data structure and as a protocol of single atomic steps with any
  number of thieves; what claimers get, and what a batch beyond the tail leaves behind. Interleavings are
  sequences of events, so that a lemma about `Run(Init(c), events)` is about all of them.
- `QueueRefinement`, `StatTraversal`, `StatSystem`, `StatRefinement`, `StatMiscount`: the queue seen as a
  double-ended queue; the workers of ws_stat on such queues, their shared counter, and the sequential count
  they must equal; the workers on the lock-free queues themselves, step by step, refining those; and a run
  of them that miscounts.
- `Glob`, `GlobLaws`: file name patterns: the matcher, and what patterns mean on their text.
- `Names`, `Retention`: names of the deleted area and the three parsers for them; how long entries are kept.
- `DeletedArea`, `RetentionEdit`, `DeletedAreaSafety`, `DeletedAreaRuns`: entries and directories under
  expire, release and rename with roll back; single operations, runs of ws_editdb, and runs over all tools.
- `StrayProtocol`, `StrayCleanup`, `ExpireThenCleanup`: the cleanup of stray directories against concurrent
  tools, its two guards for workspaces in allocation, and what it does to workspaces expired before.
- `Extension`: durations, 32-bit arithmetic and the quota of extensions.
- `Base64`: the encoder of calendar attachments and its lines.
- `Rmtree`: deletion of directory trees under failures.
- `AccessControl`, `AccessText`, `FilesystemOrder`: access lists and the order of filesystems: the program,
  what lists mean on their text, and the order by positions in the configuration.
- `GroupListing`: the cached group check and the listing shortcut that uses it.

Failures of system calls, clocks, directory listings and lookups are parameters that take any value.
Code that updates objects is a class or a method with loops, proved against a specification function, and
the properties are lemmas about that function, since lemmas cannot call methods. What such a function has to
compute is said once more without it: on the text of patterns, names and lists, as plain sums, by the first
position at which something holds, with the numbers of the program written out.

`dafny verify dfyconfig.toml` checks everything.

## What the proofs found

Where the code does not do what its comments or its purpose suggest, the model follows the code, a lemma
exhibits the case, and another states exactly when it does:

- A batch steal is exactly-once if and only if t + n is still within the tail when its compare-and-swap
  succeeds; n comes from an earlier load of bottom, and the owner pops without a compare-and-swap while
  t < b (`BatchStealCanDuplicate`, `StealIsExact`, `ExactlyOnceIffWithinTail`). With one item per steal,
  claims are exact without condition (`SingleStealsAreSafe`).
- After a batch beyond the tail no further push of the owner ever returns, if and only if the batch reaches
  past the push that was under way, if any (`UnsafeBatchStopsTheOwner`, `PushBlocksForever`). Otherwise the
  owner goes on, and in either case a push under way vanishes: its item is never taken
  (`UnsafeBatchStrandsThePush`, `BatchStealCanStrand`). The whole tool then ends with a wrong count, as the
  empty path that the thief gets lowers the counter in place of the lost one (`SystemCanMissADirectory`).
- A claimed item is moved out later, and a push may have filled its slot by then: the item is lost, also
  with single steals and in a ring of any capacity (`OvertakenThiefLosesItsItem`). The queue works if and
  only if neither happens (`QueueWorksIff`); the tenth of the ring that push keeps free is the margin that
  excludes the second (`LagBoundIsExact`, `ReserveSufficesRun`). ws_stat is exact under the same two
  conditions (`SystemIsExact`), and with one worker always (`OneWorkerIsExact`).
- Phase 1 of the stray cleanup covers allocations of at most 3599 seconds, not 3600, because
  both clocks show whole seconds (`GraceSufficesIff`).
- Phase 3 removes a directory that still has its entry if and only if a retirement or a rename has parted
  their names and nothing has joined them since, or the entry came to a listed name only after the reading of
  names had begun, with a timestamp from before the run or after 2100 (`StrayHasEntryIff`,
  `RenameRacesWithCleanup`, `DifferentNamesAreRemoved`, `LateRetirementIsRemoved`).
- An entry that could not be read protects a directory only if that is named like it, although a comment
  calls such a workspace immortal (`LiveEntriesAreSpared`, `UnreadableEntryLosesItsDirectory`).
- `release` bumps its timestamp once without looking again, and overwrites an entry exactly if both names
  are in use (`ReleaseLosesIff`, `ReleaseLosesAnEntry`).
- Expiring looks up the name of the entry but moves the directory under its own name. When they differ, as
  for workspaces that root allocates for somebody else, the two never end under one name
  (`ExpiredTogetherIff`), and the directory stays live without an entry exactly if its own name is occupied
  or its rename fails (`DirectoryStaysBehindIff`, `DirectoryStaysBehind`). No directory that holds something is
  overwritten (`RunKeepsContents`), but if it does move, the next cleanup removes it while its entry remains;
  `ExpiredDataIsLostIff` says exactly when, `DataForSomebodyElseIsLost` gives a case.
- `release` looks up its name among the entries only, so the directory stays live without an entry exactly
  if a directory that holds something has the name, or its rename fails (`ReleasedStaysBehindIff`,
  `ReleasedStaysBehind`).
- A negative expired time is not written to the database, and a damaged release time replaces the name, so
  that ws_editdb and the expirer can disagree about such entries (`EditKeepsBoundary`, `EditStaysInStep`,
  `NegativeExpiredBreaksTheBound`).
- The expirer reads timestamps from names that the other parsers refuse, exactly where std::stol accepts
  what follows the last dash and it is no plain stamp (`ParsersAgreeIff`, `ParsersDiffer`); on such names the
  boundaries can differ too (`BoundariesAgree`, `BoundariesDiffer`).
- Creation takes a negative maximum duration for none, extension takes it literally (`LimitsAgreeIff`).

## Model

| member | source | states |
|---|---|---|
| RingIndex.MaskIsModulo | src/PathWorkStealingQueue.hpp:113 | and-ing with a power of two less one is the remainder, bit by bit |
| RingIndex.SlotIsModulo | src/PathWorkStealingQueue.hpp:113 | the masked cast of a signed 64-bit index is the index modulo the capacity, negative indices included |
| RingIndex.SlotsDistinct | src/PathWorkStealingQueue.hpp:83-113 | for every power-of-two capacity, indices less than one capacity apart never share a slot |
| RingIndex.LagBoundIsExact | src/PathWorkStealingQueue.hpp:105-113 | for every index i and every top: no push that the 90% guard admits hits the slot of i, if and only if top is 1 to capacity/10 beyond i, modulo the capacity; otherwise some admitted push does hit it |
| RingIndex.HalfOrLimit | src/PathWorkStealingQueue.hpp:203-207 | a batch takes half of what there is, rounded down, at least one, or the limit if that is less |
| WorkStealingQueue.PathWorkStealingQueue.constructor | src/PathWorkStealingQueue.hpp:81-84 | an empty queue over a power-of-two ring |
| WorkStealingQueue.WindowStore | src/PathWorkStealingQueue.hpp:113-118 | storing at the bottom index appends one item to the window of live items and disturbs none |
| WorkStealingQueue.PathWorkStealingQueue.WaitForRoom | src/PathWorkStealingQueue.hpp:102-111 | the wait loop: returns only below the 90% limit, and without waiting if the queue is below it; thieves may take the oldest items meanwhile |
| WorkStealingQueue.PathWorkStealingQueue.Push | src/PathWorkStealingQueue.hpp:101-122 | appends the item at the new end of what thieves left; a push that has not returned found the queue at its limit |
| WorkStealingQueue.PathWorkStealingQueue.Pop | src/PathWorkStealingQueue.hpp:129-161 | takes the newest item, or nothing from an empty queue, and leaves the rest in order |
| WorkStealingQueue.PathWorkStealingQueue.Steal | src/PathWorkStealingQueue.hpp:168-186 | takes the oldest item, or nothing from an empty queue |
| WorkStealingQueue.PathWorkStealingQueue.StealBatch | src/PathWorkStealingQueue.hpp:195-220 | takes the oldest max(1, half) items up to the limit, in order |
| QueueProtocol.NextInv | src/PathWorkStealingQueue.hpp:101-220 | every single load, store, compare-and-swap and move keeps the invariant of indices, program points and claims, if a succeeding steal does not reach past the tail |
| QueueProtocol.RunInv | src/PathWorkStealingQueue.hpp:101-220 | the invariant holds after every interleaving of that kind, with any number of thieves |
| QueueProtocol.RunMonotone | src/PathWorkStealingQueue.hpp:101-220 | top never decreases and no claim is taken back, in any interleaving at all |
| QueueProtocol.SingleStealsAreSafe | src/PathWorkStealingQueue.hpp:101-220 | in every interleaving in which each successful steal takes one item, as a single steal or a batch with n = 1, each item is claimed exactly once or still queued, and top is at most bottom whenever the owner is between operations; no condition on the tail |
| QueueProtocol.NoBatchMeansSingles | src/PathWorkStealingQueue.hpp:168-207 | thieves that call the single steal, or a batch limited to one item, make such interleavings only |
| QueueProtocol.StealIsExact | src/PathWorkStealingQueue.hpp:195-220 | a batch whose compare-and-swap succeeds claims the n oldest items, and each exactly once if and only if t + n is at most the tail at that moment |
| QueueProtocol.ExactlyOnceIffWithinTail | src/PathWorkStealingQueue.hpp:101-220 | over whole interleavings with batches: exactly-once holds at the end if and only if every successful steal found t + n within the tail |
| QueueProtocol.BatchStealCanDuplicate | src/PathWorkStealingQueue.hpp:195-220 | the concrete interleaving in which a batch planned from a stale bottom claims an item a second time and leaves top above bottom |
| QueueProtocol.FullQueueBlocks | src/PathWorkStealingQueue.hpp:105-111 | a push into a queue at its limit waits as long as there are no thieves, as in the initial distribution |
| QueueAftermath.PushBlocksForever | src/PathWorkStealingQueue.hpp:102-111 | a push that is in its loop while top is above bottom waits in every continuation, because the negative distance is cast to a huge unsigned number |
| QueueAftermath.UnsafeBatchStopsTheOwner | src/PathWorkStealingQueue.hpp:102-216 | for every state in which a batch beyond the tail commits: no continuation publishes a push that had not yet found room, if and only if the batch reaches past the push under way, if there is one; otherwise the owner completes further pushes |
| QueueAftermath.UnsafeBatchStrandsThePush | src/PathWorkStealingQueue.hpp:113-216 | for every batch that commits while a push that has found room is under way: in no continuation is that push claimed, or published where it could be, if and only if the batch reaches beyond the tail |
| QueueAftermath.BatchStealCanStrand | src/PathWorkStealingQueue.hpp:101-216 | the concrete interleaving in which the owner goes on: item 1 is claimed twice, item 4 in no continuation, and the next push completes |
| QueueRefinement.QueueIsADeque | src/PathWorkStealingQueue.hpp:101-220 | every atomic step, with steals within the tail, is one operation of a double-ended queue or none: the store of push appends, the claim of pop takes the newest, the compare-and-swap of a thief takes the n oldest |
| QueueSlots.NextSlots | src/PathWorkStealingQueue.hpp:113-216 | every step keeps each item that is queued, or claimed and not yet moved out, in its own slot, unless a push writes to a slot that somebody has still to empty |
| QueueSlots.RunSlots | src/PathWorkStealingQueue.hpp:101-220 | so does every interleaving without such a push and with steals within the tail; nothing is asked of any other state |
| QueueSlots.OverwriteLoses | src/PathWorkStealingQueue.hpp:113 | a push into such a slot loses the item that was there: it is never delivered, as only its own push ever wrote it |
| QueueSlots.QueueWorksIff | src/PathWorkStealingQueue.hpp:101-220 | over every interleaving: each item is claimed exactly once and is with its claimer or still in the ring, if and only if every successful steal is within the tail and every push writes to a slot that nobody has still to empty |
| QueueSlots.ClaimersGetTheirItems | src/PathWorkStealingQueue.hpp:101-220 | in such interleavings whoever claimed an item moves out that item, every claim is delivered once nobody holds one, and live indices have distinct slots |
| QueueSlots.ReserveSufficesRun | src/PathWorkStealingQueue.hpp:105-113 | it is enough that, whenever push is about to write, no thief with items to move is further behind top than a tenth of the capacity, although push works from a stale top |
| QueueSlots.OvertakenThiefLosesItsItem | src/PathWorkStealingQueue.hpp:101-186 | in a ring of every capacity, with single steals only: a thief that stalls while the queue goes once around moves out the item of another push, and the first item is lost |
| StatTraversal.PlusAssociates | src/ws_stat.cpp:98-105 | adding counters, with 64-bit wrap-around, is associative |
| StatTraversal.NextInv | src/ws_stat.cpp:157-236 | over exactly-once queues every step of every worker keeps: counter = queued + stolen and not yet queued + counted but not yet pushed + being processed, and the shares of all workers add up to the sequential count |
| StatTraversal.RunInv | src/ws_stat.cpp:157-236 | so does every interleaving of any number of workers |
| StatTraversal.CountIsReport | src/ws_stat.cpp:128-154 | the sequential count of every tree is the report: numbers of files, links and directories, and the sizes and blocks of all files, as plain sums over the tree modulo 2^64, with every directory visited as often as it occurs |
| StatTraversal.CollectLevel | src/ws_stat.cpp:128-154 | the first level plus the recursive counts of the listed subdirectories makes the report of the tree |
| StatTraversal.DistributeCounts | src/ws_stat.cpp:264-275 | the round-robin distribution puts every directory into one queue and matches the initial counter |
| StatTraversal.RoundRobin | src/ws_stat.cpp:267-270 | directory number i goes to queue i modulo the number of workers, behind those already there |
| StatTraversal.ExitedMeansDone | src/ws_stat.cpp:188-196 | when all workers have left, every queue is empty and the local results are all there is |
| StatTraversal.TraversalIsExact | src/ws_stat.cpp:157-295 | over exactly-once queues, for every tree, number of workers and interleaving: once all workers have left, the sum of their results is the sequential count, each directory visited exactly once |
| StatTraversal.Aggregate | src/ws_stat.cpp:289-292 | the loop adds every local result once |
| StatTraversal.StatWorkspace | src/ws_stat.cpp:239-295 | over exactly-once queues, any result of the whole tool is the report of the tree |
| StatTraversal.CountVisitsAll | src/ws_stat.cpp:128-154 | that count visits each directory of the tree as often as it occurs and counts all of them but the root |
| StatRefinement.NextRefines | src/ws_stat.cpp:157-236 | on the lock-free queues themselves every atomic step of a worker, inside a queue operation or outside, is one step of the workers on exactly-once queues or none, if steals stay within the tail and pushes write to free slots |
| StatRefinement.RunRefines | src/ws_stat.cpp:157-236 | so every such interleaving keeps counter and total of those workers |
| StatRefinement.StartCoherent | src/ws_stat.cpp:264-275 | the queues that the initial distribution fills push by push hold what it deals out |
| StatRefinement.SystemIsExact | src/ws_stat.cpp:239-295 | the whole tool on its lock-free queues: for every tree, number of workers, capacity and such interleaving, once all workers have left, first level plus results is the report of the tree |
| StatRefinement.OneWorkerIsExact | src/ws_stat.cpp:239-295 | with one worker that holds for every interleaving, with no condition |
| StatMiscount.SystemCanMissADirectory | src/ws_stat.cpp:157-295 | without the first condition it fails: for every number of workers from two on there is a tree with one file and an interleaving of the whole tool after which all workers have left, the counter is zero, and no file is counted |
| Glob.MatchesIffMeans | src/utils.cpp:196-200 | matching token by token is the declarative meaning: the string can be cut into one piece per token that accepts it |
| Glob.NewStar | src/utils.cpp:218-223 | why one level of backtracking is enough: passing a star makes every restart from an earlier one superfluous |
| Glob.ScanClass | src/utils.cpp:227-247 | the span loop decides membership in the class of spans, or finds the class malformed |
| Glob.GlobMatch | src/utils.cpp:192-271 | for all patterns and strings the loop with one restart point answers exactly the declarative meaning, with classes, ranges, negation, escapes and malformed classes, and terminates |
| Glob.PlainPatterns | src/dbv1.cpp:328-340 | a plain pattern matches itself only; with a star at the end, every string it is a prefix of |
| GlobLaws.EmptyLaw | src/utils.cpp:252-261 | on the text of patterns: the empty pattern, or a lone backslash, accepts the empty string only |
| GlobLaws.PlainLaw | src/utils.cpp:255-261 | a plain character in front of any pattern accepts itself, and the pattern the rest of the string |
| GlobLaws.QuestionLaw | src/utils.cpp:214-217 | a question mark in front accepts any one character |
| GlobLaws.StarLaw | src/utils.cpp:218-223 | a star in front accepts any piece of the string |
| GlobLaws.EscapeLaw | src/utils.cpp:252-254 | a backslash and any character in front accept exactly that character |
| GlobLaws.ClassLaw | src/utils.cpp:224-251 | a class in front, with any text between its brackets up to the first closing one that is not its first character, accepts the characters listed in it singly or in ranges, and with an exclamation mark exactly the others |
| GlobLaws.UnclosedLaw | src/utils.cpp:234-244 | a bracket without such a closing one accepts itself, and what follows is the rest of the pattern; these laws cover every way a pattern can begin |
| GlobLaws.RangePattern | src/utils.cpp:224-251 | a range alone accepts the strings of one character within it, negated those of one character outside |
| GlobLaws.SmallPatterns | src/utils.cpp:214-261 | a question mark accepts strings of one character, an escaped character itself, and []a itself |
| Names.DecimalValue | src/dbv1.cpp:743 | printing a number in decimal and reading it back gives the number |
| Names.StampedSplits | src/dbv1.cpp:665-679 | splitting base, dash, decimal n gives back base and n for every non-empty base, dashes allowed, and n below 2^63 |
| Names.SplitsIff | src/dbv1.cpp:665-679 | a name splits into base and n exactly if it is the base, which is not empty, a dash, and digits of value n below 2^63 |
| Names.StampedInjective | src/dbv1.cpp:743 | a name in the deleted area determines its base and its timestamp |
| Names.TrailingTimestamp | src/ws_expirer.cpp:366-383 | succeeds exactly on names with a timestamp between 1 and the year 2100, and writes its result only then |
| Names.SplitString | src/utils.cpp:540-548 | the getline loop yields the fields, none after a delimiter at the end |
| Names.FieldsLaw | src/utils.cpp:540-548 | on text: a word and a delimiter make one field whatever follows, and a word at the end makes one if it is not empty |
| Names.LastField | src/ws_expirer.cpp:866-867 | the field whose number is the count of dashes is what follows the last dash |
| Names.ParsersAgree | src/utils.cpp:551-565 | on every id with a base and a digit suffix, timestampFromId, splitExpiredId and the parser of the expirer read the same timestamp, or all none |
| Names.ExpirerReadsTheEnd | src/ws_expirer.cpp:866-867 | for every id the expirer reads what std::stol makes of the text after the last dash |
| Names.StolReads | src/ws_expirer.cpp:866-877 | std::stol: spaces, a sign, digits, anything; the signed value if it fits 64 bits |
| Names.ParsersAgreeIff | src/ws_expirer.cpp:866-876 | for every id at all, expirer and timestampFromId read the same timestamp, or both none, if and only if the id has a base and a digit suffix, or the text after its last dash is no number to std::stol |
| Names.ParsersDiffer | src/ws_expirer.cpp:866-876 | an id on which they differ: a number that other characters follow |
| Retention.BoundaryIsLatest | src/ws_editdb.cpp:338-352 | the boundary of ws_editdb is the later of the expiration and the expired time, or of what the name says if there is none |
| Retention.ExpirerBoundaryIsLatest | src/ws_expirer.cpp:866-932 | that of the expirer likewise; with a damaged release time, second 3000000000 stands for what the name says |
| Retention.Decide | src/ws_expirer.cpp:849-905 | the decision about an entry as a boundary and a keep time, for released, expired and damaged entries |
| Retention.BoundariesAgree | src/ws_editdb.cpp:348-352 | for every entry not released, v1 or v2, and every id that the expirer accepts: the boundary of ws_editdb is that of the expirer if and only if there is an expired time, or both take the same time in its place, or the expiration is no earlier than either |
| Retention.BoundariesAgreeOnStamps | src/ws_editdb.cpp:348-352 | so they agree on every id with a base and a digit suffix while no release time is damaged |
| Retention.BoundariesDiffer | src/ws_expirer.cpp:866-903 | and differ on a v1 entry whose number other characters follow |
| Retention.EditKeepsBoundary | src/ws_editdb.cpp:403-448 | under every name an edit can leave, old or new, the expirer keeps the planned boundary up to 999 s later, if and only if a condition on new times and old name holds: an expired time, or none and no damaged release time, or a name early enough, or a planned boundary next to the substitute date |
| Retention.NegativeExpiredBreaksTheBound | src/dbv1.cpp:993-995 | a negative expired time is not written, and the old name then keeps the entry a year too long |
| DeletedArea.FirstFree | src/dbv1.cpp:918-929 | the least timestamp in range whose name is free both for an entry and for a directory |
| DeletedArea.UsableId | src/dbv1.cpp:742-753 | the name found carries the least timestamp from the boundary on that is the entry's own or neither reserved nor taken in either area |
| DeletedArea.DBEntryV1.Expire | src/dbv1.cpp:893-958 | the method changes files and object exactly as the specification function says, under every pattern of failures |
| DeletedArea.DBEntryV1.Release | src/dbv1.cpp:832-885 | likewise for release, with its single bump of the timestamp |
| DeletedArea.DBEntryV1.ExpiredIdFor | src/dbv1.cpp:725-755 | likewise for the search for a new name |
| DeletedArea.DBEntryV1.RenameAsExpired | src/dbv1.cpp:761-827 | likewise for the rename with its roll back |
| DeletedArea.ExpireWorkspace | src/ws_expirer.cpp:711-735 | the expirer's step: entry first, then the directory under the timestamp that was used; its rename fails on an existing directory that holds something |
| DeletedArea.ReleaseWorkspace | src/ws_release.cpp:275-385 | the step of ws_release: entry first, then the directory under the name that the entry got, bumped or not |
| DeletedAreaSafety.ExpireTakesLeastFree | src/dbv1.cpp:918-929 | expire succeeds with a timestamp if and only if that is the least one from the given one on that is free in both areas, and lookups and rename work; the object then names the file that exists |
| DeletedAreaSafety.ExpireTimeIs | src/dbv1.cpp:897-908 | a printed timestamp is read back, up to 2^63 - 1 |
| DeletedAreaSafety.ExpireNotesTheTime | src/dbv1.cpp:934-947 | the file of an expired entry has the time of the call as expired time and everything else as before; if the write failed, all is as before |
| DeletedAreaSafety.ExpireLosesNothing | src/ws_expirer.cpp:711-735 | with directory and id named alike, expiring leaves every deleted entry and directory as it was and loses no workspace |
| DeletedAreaSafety.DirectoryStaysBehindIff | src/ws_expirer.cpp:728-735 | the entry is retired and the directory stays live, if and only if the entry's part works and the directory's own name with that timestamp is occupied by a directory that holds something, or its rename fails otherwise |
| DeletedAreaSafety.AlikeStaysBehindIff | src/ws_expirer.cpp:728-735 | with id and directory named alike only a failing rename does that |
| DeletedAreaSafety.ExpiredTogetherIff | src/ws_expirer.cpp:728-732 | when the entry goes, the directory ends under the entry's name if and only if they are named alike and its rename works |
| DeletedAreaSafety.DirectoryStaysBehind | src/dbv1.cpp:160-161 | it happens: a workspace that root allocates for bob expires in the second in which one of bob's own did |
| DeletedAreaSafety.ReleaseLosesIff | src/dbv1.cpp:856-870 | release overwrites a deleted entry exactly if it goes through while the given name and the next one are both in use |
| DeletedAreaSafety.ReleaseLosesAnEntry | src/dbv1.cpp:858-866 | a state in which it does |
| DeletedAreaSafety.ReleaseNotesTheTime | src/dbv1.cpp:840-876 | the file of a released entry has the time of the call as release time and everything else as before; if the write failed, all is as before |
| DeletedAreaSafety.ReleasedStaysBehindIff | src/ws_release.cpp:335-384 | release leaves the directory live without an entry, if and only if the entry's part works and the entry's new name is occupied by a directory that holds something, or the rename fails otherwise |
| DeletedAreaSafety.ReleasedTogetherIff | src/ws_release.cpp:335-384 | when the entry goes, the data ends under the entry's name in all other cases and in no other, whatever the directory was called |
| DeletedAreaSafety.ReleasedStaysBehind | src/ws_release.cpp:335-384 | it stays behind where a directory without an entry has the name, as release looks up entries only |
| DeletedAreaSafety.UsableIdIff | src/dbv1.cpp:742-753 | the search for a new name returns the one with timestamp t if and only if t is the first, within 1000, that is the entry's own or neither planned nor in use, every earlier one was passed over as planned or in use, and no lookup failed on the way |
| DeletedAreaSafety.RenameIsAtomic | src/dbv1.cpp:761-827 | under any failures a rename ends with entry and directory under the new name, or nothing changed, or the explicit roll-back error; the object always names the existing file; a missing directory means only the entry moves; nothing else changes |
| DeletedAreaSafety.RenameSucceedsIff | src/dbv1.cpp:761-827 | a rename succeeds if and only if the entry is not released, both names split with the same base and a positive new timestamp, and the name is its own already, or nothing has it, lookups and the entry's rename work and the directory is missing or follows; then both are under the new name and nothing is under the old one |
| DeletedAreaSafety.RolledBackIff | src/dbv1.cpp:805-826 | it is rolled back, with nothing changed, if and only if the same holds but the directory does not follow and the entry gets back |
| DeletedAreaSafety.RenameLosesNothing | src/dbv1.cpp:788-795 | a rename overwrites no entry and no directory |
| RetentionEdit.EditEntry | src/ws_editdb.cpp:325-451 | one round of the edit loop changes files, object and plan as the specification function says, dry run or not |
| RetentionEdit.EditEntries | src/ws_editdb.cpp:316-451 | the loop over all entries with its set of reserved names, likewise |
| RetentionEdit.PlannedNamesDiffer | src/ws_editdb.cpp:313-316 | names planned in one run are pairwise distinct, in a dry run as in a real one |
| RetentionEdit.DryRunOnlyPlans | src/ws_editdb.cpp:380-440 | a dry run changes no file and plans only names that are free |
| DeletedAreaRuns.RunLosesNothing | src/dbv1.cpp:725-958 | with ids and directories named alike, over every sequence of expire and edit operations with any failures: no entry or directory is overwritten, duplicated or lost, and what is in the deleted area stays there |
| DeletedAreaRuns.RunKeepsContents | src/ws_expirer.cpp:196-212 | whatever the names, over every sequence of expire, release and edit operations with any failures: no directory that holds something is overwritten, and what holds something in the deleted area stays there |
| DeletedAreaRuns.RenameKeepsPairs | src/dbv1.cpp:761-827 | a rename separates an entry from its directory if and only if all checks pass, the entry moves, its directory does not and the entry does not get back; exactly then it reports that the roll back failed |
| DeletedAreaRuns.RunKeepsPairs | src/ws_expirer.cpp:711-735 | over every such sequence, names alike and without release, in which roll backs work, a directory of the deleted area belongs to an entry exactly if it carries its name |
| DeletedAreaRuns.EditRunLosesNothing | src/ws_editdb.cpp:316-451 | one run of ws_editdb over entries that were all read at its start loses nothing |
| DeletedAreaRuns.EditStaysInStep | src/ws_editdb.cpp:348-451 | for an edit of an entry not released whose writes succeed: the expirer reads from file and name a boundary between the planned one and 999 s above it whatever fails in the rename, if and only if the same condition on new times and old name holds |
| DeletedAreaRuns.EditPlansIff | src/ws_editdb.cpp:409-441 | an edit plans the name with timestamp t if and only if it sets a time and moves the boundary of an entry not released to a positive one, and t is the first from that boundary on at which the search ends, and not the old one |
| DeletedAreaRuns.EditRenames | src/ws_editdb.cpp:435-446 | if nothing fails in the rename, entry and directory get the planned name |
| DeletedAreaRuns.EditNotesTheTimes | src/ws_editdb.cpp:373-399 | whatever becomes of the rename, the file of the entry has the times that were asked for, and else those it had |
| DeletedAreaRuns.EditRunNotesTheTimes | src/ws_editdb.cpp:316-451 | a run over entries that were all read at its start does that to every one of them |
| StrayProtocol.NextInv | src/ws_expirer.cpp:559-626 | each step of the cleanup, of a retirement, a drop or a rename keeps: a listed workspace that has an entry has it under the listed name and will be known, unless it came apart |
| StrayProtocol.ListedStrayHasNoEntry | src/ws_expirer.cpp:559-626 | in every interleaving, a directory removed as stray that is the one that was listed has no entry any more, unless its entry was renamed during the cleanup or was elsewhere when listed |
| StrayProtocol.StrayHasEntryIff | src/ws_expirer.cpp:559-626 | in every interleaving of everything, a directory taken for a stray still has its entry if and only if some retirement or rename gave the two different names and no later step has brought them together or taken the entry away, or the entry came to the listed name after the reading of names had begun, with a timestamp that the second guard does not defer |
| StrayProtocol.UnrenamedStrayHasEntryIff | src/ws_release.cpp:275-363 | while nobody renames, and every workspace is retired under one name, as release does and expire does only for directories named like their entries: if and only if its entry came late in that sense; a retirement that straddles the start of the cleanup is otherwise harmless |
| StrayProtocol.NothingWithAnEntryIsRemoved | src/ws_release.cpp:275-363 | so without renames, retirements under two names and late entries no interleaving removes a directory whose entry remains |
| StrayProtocol.RenameRacesWithCleanup | src/dbv1.cpp:805-812 | the interleaving in which a rename by ws_editdb makes the cleanup remove a directory that has an entry |
| StrayProtocol.LateRetirementIsRemoved | src/ws_expirer.cpp:586-593 | the interleaving in which a listed name is used again by a clock that lags, which the second guard cannot see |
| StrayProtocol.DifferentNamesAreRemoved | src/ws_expirer.cpp:728-732 | a workspace retired under two names, as by the expirer for directories that root made for somebody else, is removed by the next cleanup without any race |
| StrayCleanup.CollectEntries | src/ws_expirer.cpp:487-497 | the loop notes id and path of every live entry, and the id alone if it could not be read |
| StrayCleanup.MoveStrays | src/ws_expirer.cpp:501-551 | the loop of phase 1 moves directories as the specification function says, and nothing in a dry run |
| StrayCleanup.MovedIff | src/ws_expirer.cpp:501-551 | phase 1 moves a live directory if and only if no known entry has its name as id or its path as path, and it is listed, 3600 s old or more, and the rename works, which it does not onto a directory that holds something |
| StrayCleanup.LiveEntriesAreSpared | src/ws_expirer.cpp:487-511 | so no directory of a live entry is moved, whatever was listed and whatever clocks say, if the entry was read or the directory is named like it |
| StrayCleanup.UnreadableEntryLosesItsDirectory | src/ws_expirer.cpp:490-496 | and one is moved whose entry could not be read and has another name, although a comment calls such a workspace immortal |
| StrayCleanup.RemoveStrays | src/ws_expirer.cpp:581-626 | the loop of phase 3, likewise |
| StrayCleanup.RemovedIff | src/ws_expirer.cpp:581-626 | phase 3 removes a deleted directory if and only if it is listed, no entry has its name, the name does not end in a time from the start of the run to second 4102444800, and the removal works |
| StrayCleanup.MoveIsDeferredIff | src/ws_expirer.cpp:586-593 | the appended timestamp reads back, so the guard defers the directory exactly if its time is not before the start of the run and not after 2100 |
| StrayCleanup.RunRemovesNothingItMoved | src/ws_expirer.cpp:396-626 | with a clock that does not go back before 2100, no directory that was live at the start of a run is removed in it, whatever was listed or failed |
| StrayCleanup.GraceSufficesIff | src/ws_expirer.cpp:354-361 | phase 1 leaves every workspace in allocation alone exactly if the time from directory to entry and from snapshot to check add up to at most 3599 s, as clocks show whole seconds |
| StrayCleanup.AllocationIsNotMoved | src/ws_expirer.cpp:515-527 | so the loop of phase 1 does not move a workspace whose entry is written in that time |
| ExpireThenCleanup.ExpiredDataIsLostIff | src/ws_expirer.cpp:581-735 | expire and a later cleanup together: the entry stays, and the data is gone, if and only if the directory was moved and the cleanup comes to it, it is not named like its entry nor like any other, and its timestamp is before the start of the run or implausible |
| ExpireThenCleanup.DataForSomebodyElseIsLost | src/dbv1.cpp:156-161 | it happens to what root allocates for bob: expired at second 7, removed by a cleanup that starts at second 8, the entry still there |
| Extension.SecondsExactIff | src/ws_allocate.cpp:590 | the int product of days, 24 and 3600 does not overflow on the way exactly up to 24855 days |
| Extension.OverflowNeverLengthens | src/ws_allocate.cpp:590 | reduced to 32 bits it never gives more time than asked for |
| Extension.LimitsAgreeIff | src/ws_allocate.cpp:302-321 | creation and extension clamp to the same limit exactly unless the maximum is negative |
| Extension.ValidateDuration | src/ws_allocate.cpp:301-322 | users get what they ask for within the limit, and the limit otherwise; root gets anything |
| Extension.Create | src/ws_allocate.cpp:677-684 | the settings of a new entry |
| Extension.CreateOutcome | src/ws_allocate.cpp:677-684 | settings, quota and the expiration after the granted days, which are those asked for within the limit, and the limit otherwise |
| Extension.DBEntry.UseExtension | src/dbv1.cpp:589-611 | object and file after the call, or a refusal that leaves the file as it was |
| Extension.DBEntry.Extend | src/ws_allocate.cpp:545-600 | the extension branch: clamped duration, kept owner settings, one extension used |
| Extension.CallOutcome | src/ws_allocate.cpp:545-600 | what every call leaves in the file: a user who asks for a later expiration needs and uses one extension, a shorter one is stored for nothing, mail address, reminder and comment are stored if the owner gives them; a refused call and a failed write change nothing |
| Extension.DelegateKeepsOwnersSettings | src/ws_allocate.cpp:545-571 | an extension by a delegate changes neither mail address nor reminder nor comment |
| Extension.StepPotential | src/dbv1.cpp:601-609 | expiration plus extensions times the longest duration never grows, except by the time a call comes late |
| Extension.LifetimeBound | src/ws_allocate.cpp:301-322 | over every run of calls by users: at most maxextensions of them lengthen, and the expiration is at most creation + (1 + maxextensions) longest durations, plus total lateness, which is zero if each call is before the expiration |
| Extension.GreedyReachesTheBound | src/ws_allocate.cpp:573-590 | the bound is reached by asking for the maximum at each expiration |
| Base64.EncodingAt | src/ws_send_ical.cpp:184-202 | the encoding of section 4 of RFC 4648, character by character: the sextets of the input, then padding |
| Base64.Alphabet | src/ws_send_ical.cpp:185 | the 64 characters in their order, as what the bytes 0, 4, 8 and so on encode to |
| Base64.DecodesToInput | src/ws_send_ical.cpp:184-202 | decoding the encoding gives every byte string back |
| Base64.OnlyTheEncodingDecodes | src/ws_send_ical.cpp:184-202 | a strict decoder accepts nothing but encodings, so that the encoding is a bijection |
| Base64.Accumulates | src/ws_send_ical.cpp:191 | what the 32-bit accumulator loses on the left never reaches the bits still needed |
| Base64.Base64Encode | src/ws_send_ical.cpp:184-202 | for every byte string the accumulator loop yields exactly the encoding |
| Base64.Encoding | src/ws_send_ical.cpp:200-201 | its length is four times the number of groups of three bytes, rounded up |
| Base64.AppendLines | src/ws_send_ical.cpp:299-301 | the loop of the mail writes the lines of the encoding, each ended by CR LF |
| Base64.TerminatedStep | src/ws_send_ical.cpp:299-301 | every line is followed by carriage return and line feed |
| Base64.LinesAreTheEncoding | src/ws_send_ical.cpp:299-301 | lines have at most 76 characters (section 6.8 of RFC 2045), all but the last exactly 76, and concatenate to the encoding |
| Base64.MailRoundTrip | src/ws_send_ical.cpp:184-301 | dropping line ends from the attachment and decoding it gives the bytes back |
| Rmtree.RmtreeFd | src/utils.cpp:884-978 | under any pattern of failures and deadlines: what is left is the specified rest, deleted plus files left is files before, and the open descriptors are those before without the one owned |
| Rmtree.RmtreeEntry | src/utils.cpp:922-973 | the same for one entry of the loop; an opened directory is closed on every path |
| Rmtree.RmtreeBelow | src/utils.cpp:659-691 | the top directory stays, the rest is as specified, descriptors balance |
| Rmtree.Rmtree | src/utils.cpp:614-650 | the top directory goes only if nothing below it is left |
| Rmtree.LeftIsWithin | src/utils.cpp:884-978 | what is left is a sub-tree of what was there |
| Rmtree.FilesAreCounted | src/utils.cpp:884-978 | a file counts once wherever it is, a directory only with its files |
| Rmtree.FileLeftIff | src/utils.cpp:884-978 | a file is left exactly if it could not be listed or unlinked, or the deadline or a failed call stopped the deletion at one of the directories that lead to it |
| Rmtree.NothingFailsNothingLeft | src/utils.cpp:884-978 | without failures no file and no directory is left |
| AccessControl.WellFormedIff | src/utils.cpp:574-588 | an entry is accepted exactly if it can be spelled as sign, id and permissions, with unique pieces up to a leading sign, which is a modifier whenever an id is left |
| AccessControl.ParseACL | src/utils.cpp:569-610 | the loop yields the accepted entries in order; an entry whose permissions are all unknown is dropped, not widened |
| AccessControl.ParsedFirstIsSet | src/utils.cpp:569-610 | as a set, the result depends only on the set of strings |
| AccessControl.Evaluate | src/config.cpp:488-503 | the loop over one list computes whether some entry matches and whether all that match allow |
| AccessControl.HasAccess | src/config.cpp:468-559 | the decision is the rule over sets: deny wins, entries about the user replace those about groups, administrators override, no list allows all, an unknown filesystem none |
| AccessText.AccessByText | src/config.cpp:457-559 | the decision about every configuration, on the text of its lists: access for administrators, for all without lists, and else if all that is said about the user grants the intent, or if nothing is, all that is said about the groups, if anything is; an entry says what its sign, id and names of permissions say |
| AccessText.OneEntryDecides | src/config.cpp:457-462 | a list of one entry about the user gives exactly what the entry grants: without names all, or with a minus none; with names those, or with a minus all others; nothing if no name is a permission |
| AccessText.EntriesCombine | src/config.cpp:519-533 | of several entries about the user all have to grant it |
| AccessText.DocumentedForms | src/utils.cpp:566-610 | bob, +bob, -bob, +bob:create and -bob:create, for every id and permission |
| AccessControl.OrderDoesNotMatter | src/config.cpp:468-559 | reordering or repeating entries, groups or administrators changes no decision |
| AccessControl.ValidFilesystems | src/config.cpp:581-656 | the list is: first default of the user, first new default of a group, global default, all others by name, each only if accessible |
| AccessControl.ValidListIsExact | src/config.cpp:581-656 | it holds every accessible filesystem exactly once and no other |
| FilesystemOrder.ValidListOrder | src/config.cpp:581-656 | and in this order: the first accessible default of the user by position in the configuration, the first one of a group that is not that, the global default, all others as configured |
| GroupListing.SortedOfIsSorted | src/utils.h:148-151 | sorting gives a sorted permutation |
| GroupListing.SetIntersection | src/utils.h:168-170 | merging two sorted lists finds exactly the common members |
| GroupListing.HasGroupIntersection.HasCommonGroups | src/utils.h:153-179 | the answer is the fresh one, and the cache keeps holding nothing else |
| GroupListing.ListGroup | src/dbv1.cpp:281-322 | the loop lists what it does not skip and what is in one of the groups |
| GroupListing.ListedIff | src/dbv1.cpp:281-322 | a file is listed, as often as it occurs, exactly if it is not skipped and its entry is in one of the groups |
| GroupListing.SkippedIff | src/dbv1.cpp:286-290 | it is skipped exactly if its name is a user, a dash and a rest with no dash but at its end, and the user has groups but none in common with the caller |
| GroupListing.ListingsAgreeIff | src/dbv1.cpp:286-290 | skipping unread entries changes nothing exactly if no skipped entry is in one of the caller's groups |
| GroupListing.ListingsAgree | src/dbv1.cpp:286-322 | which holds if an entry's group is one of its owner's groups and the process groups are among the caller's listed ones |

## Left out

- QueueProtocol.Next: does not model weak memory orderings; atomics are sequentially consistent, and counters are unbounded where the program has signed 64-bit ones.
- StatTraversal.TraversalIsExact: assumes exactly-once queues, which StatRefinement.SystemIsExact replaces by the two conditions of QueueSlots.QueueWorksIff; neither claims that the traversal ends, as push may wait forever, also in the initial distribution before any worker exists.
- StatTraversal.StatWorkspace: assumes exactly-once queues in the same way.
- StatRefinement.SystemIsExact: one direction only; StatMiscount.SystemCanMissADirectory shows that the first condition is needed, but not every breach spoils the count, as a thief that moves late may get the item that was pushed into its slot.
- StatRefinement.Fits: speaks about runs that get to their workers, so that no queue is filled beyond its limit at the start, where push would wait (QueueProtocol.FullQueueBlocks).
- StatTraversal.Next: takes a queue operation as one step, which StatRefinement justifies; exceptions that skip a subdirectory appear as a shorter tree.
- WorkStealingQueue.PathWorkStealingQueue.Push: does not model interleaving inside an operation other than thieves during the wait; QueueProtocol does.
- DeletedArea.FileStore.RenameDb: does not model half-written entry files or renames across devices; a write replaces the whole entry or fails, a rename happens or fails. Which directories are empty is fixed.
- DeletedArea.DBEntryV1.Expire: does not model a lookup that changes between check and rename; other processes appear between operations, and inside them in StrayProtocol only.
- DeletedAreaRuns.RunLosesNothing: does not cover release, which can overwrite entries (DeletedAreaSafety.ReleaseLosesIff), nor ws_restore and the final deletion, which are meant to take entries away.
- DeletedArea.ReleaseWorkspace: does not model the option that deletes the data at once, nor the fall-back to mv across devices.
- DeletedAreaRuns.EditStaysInStep: assumes that the writes of the entry succeed; a failed one only complains, and then the old times stay.
- RetentionEdit.EditEntries: does not model how the command line computes new times; they are parameters.
- RetentionEdit.DryRunOnlyPlans: does not claim that a dry run predicts the names of the real run, where old names become free.
- StrayCleanup.MoveStrays: does not model the counters for the log, nor the filter for names without a dash; the listing is any list.
- StrayProtocol.Next: does not model which names are free to a retirement; any name may be used, which only adds interleavings.
- Extension.DBEntry.Extend: does not model the checks on delegates and filesystems before it, nor calls by root in the run lemmas, as root is not bound by the quota.
- Extension.Wrap32: takes overflow as reduction to 32 bits, where the language leaves it undefined.
- Rmtree.RmtreeFd: does not model entries that others create or remove meanwhile, nor the entries for the directory itself and its parent, which the loop skips; a directory whose type could not be told is never unlinked as a file.
- AccessControl.ParseACL: takes the regular expression as the grammar it stands for.
- AccessControl.ValidFilesystems: takes the order of names from the configuration, where it is that of an ordered map.
- GroupListing.HasGroupIntersection: takes the groups of users as fixed while the cache lives, and std::sort as an insertion sort.
- YAML reading and writing, command line and configuration parsing, logging, mail and calendar text other than the Base64 attachment.
- Switching of capabilities and user ids, ownership and modes of files, execution of mv.
- ws_list, ws_find, ws_register, ws_restore, ws_prepare, ws_validate_config and the scripts: interface and plumbing.
- Printing of sizes and dates, checks of mail addresses: library and locale behaviour.
