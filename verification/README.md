# Tyra runtime and tools: verified models

Models of five parts of the Tyra repository, with proofs of what each part is
for. `dafny verify dfyconfig.toml` checks all modules together.

**Trie map and set** (`Bits`, `Hashes`, `HashShifts`, `Keys`, `Hamt*`). The
persistent hash trie behind `Map` and `Set`: 5-bit slices of a 64-bit hash, a
bitmap and population-count child array, buckets for full hash collisions, path
copying. A node's invariant ties every hash below it to the path that leads
there. The recursive operations are functions on trees; the methods beside them
work on heap nodes (`HamtCells`) and fill fresh arrays in loops as the source
does. They are proved equal to those functions, and say which heap nodes of
their result are new. The key callbacks are assumed lawful: `eq` is an
equivalence, and equal keys hash alike.

**Linked and sorted map** (`Masks`, `LinkedMap`, `SortedMap`, `Containers`,
`InsertionOrder`).
Classes over arrays: the entry array with tombstones and its open-addressed
index, whose slots are masks of the hash, and the sorted array with binary
search. `Containers` replays one run of operations on all four containers and
compares the answers; `InsertionOrder` tells from the run alone what a linked
map visits, and in which order.

**Task scheduler** (`Scheduler*`). A state and a step for each section that
runs under one lock: workers, joins, and the select dispatcher that subscribes
source by source and then receives. `SchedulerInvariants` and
`SchedulerSafety` show that each step keeps the invariant, `SchedulerRuns`
draws the consequences for all runs, `SchedulerProgress` shows that the pool
finishes, `SchedulerSelect` when a select is sure to return the first
completion, and `SchedulerCalls` what callers are promised in terms of what they
passed.

**JSON** (`Json*`). `JsonSyntax` describes renderings, that is, texts with
every choice a writer has; `JsonReader` is the parser as functions, `JsonLaws`
and `JsonRoundTrip` show that it accepts exactly the renderings, `JsonUnicode`
that strings stay valid UTF-8 (RFC 3629, section 3), `JsonValues` which values
occur. `JsonGrammar` is the grammar of RFC 8259 (sections 2 to 8) apart from the
parser; `JsonScan`, `JsonStandard` and `JsonWriting` compare the two.
`JsonParser` is the parser object with its position, line and column, proved
against the functions; `JsonMeaning` tells what texts parse to from their bytes
alone, and `JsonFaults` that the faults reported are there; `JsonNodes` is the
node tree on the heap with its accessors, and `JsonReadBack` reads it back
through them.

**Packages** (`Paths`, `Packages`, `Resolver*`, `Lockfile*`, `Sync`). Path
normalization, the depth-first resolver over a fixed `World` of manifests,
branches and cache, the lockfile it writes, and the check that walks the path
dependencies again. `ResolverMeaning` and `ResolverErrors` say in terms of the
files read what success and each error mean.

**Coverage** (`Coverage*`). Numbering of lines, the text form of the map with
its parser, and the merge of raw counter files. `CoverageBlocks` and
`CoverageFormat` say what the numbering and the text are, block by block and
line by line.

## What the code does not promise

Some plausible statements fail. The code is modelled as it is; each is met by
an input that shows it and by the exact condition.

- A lockfile fresh from `sync` is refused by `sync --locked` when a direct path
  dependency also names a revision or a branch (`load_manifest` lets it), or
  when a git package brings in a path package that path edges do not reach:
  `LockfileSuccess.FreshLockAccepted`, with a concrete project for each in
  `Sync.RevisedPathRefused` and `Sync.GitPathRefused`.
- A path made relative to a base leads back only if the base does not climb
  above the root beyond the prefix it shares: `Paths.RelativeRoundTrip`,
  `Paths.ClimbingBaseLost`.
- A coverage map with a line feed in a path or name, or a carriage return at
  the end of one, does not parse back: `CoverageText.CovmapRoundTrip`,
  `CoverageText.LineFeedLost`.
- Merging can depend on the order of the directory. It does not exactly when
  the positive counts of a counter or its negative ones are none, or the sum of
  each fits an `i64`: `CoverageMerge.OrderMattersNot`; three files that show it
  are in `CoverageMerge.NegativeOrderMatters`.
- The JSON parser accepts texts that are not JSON (RFC 8259):
  `JsonStandard.LeadingZeroAccepted`, `JsonStandard.RawByteAccepted`. An
  accepted text is JSON exactly when it is in UTF-8 and a scan of its bytes
  meets no leading zero and no raw control character:
  `JsonStandard.AcceptedIsJson`.
- It refuses texts that are JSON: `JsonStandard.EscapeRefused`,
  `JsonStandard.IntegerRefused`, `JsonStandard.DecimalsRefused`. A JSON text is
  accepted exactly when it has no fraction or exponent, no integer outside an
  `i64`, no half of a surrogate pair and no NUL: `JsonStandard.JsonIsAccepted`.
- A select need not return the source that completed first:
  `SchedulerSelect.TwoTasksMayMiss`. It is sure to exactly when all its sources
  are one, or the first listed is done and first when the select is called:
  `SchedulerSelect.SurelyFirstExactly`. `SchedulerSelect.EarlyMisses` says of
  the step that finds a done source whether it misses, and
  `SchedulerRuns.SelectWinner` what is returned.

## Model

| member | source | states |
|---|---|---|
| `HamtMap.MapInsert` | runtime/src/stdlib_map.rs:485-506 | every lookup in the new map gives the new value for keys equal to the inserted one and the old answer otherwise; the entries change by one overwritten or one added pair, a new pair coming last of those with its hash; the count grows exactly for an absent key; every heap node of the new trie is one of the old trie or one of at most 13 branches and one leaf or bucket allocated by the call |
| `HamtMap.MapRemove` | runtime/src/stdlib_map.rs:511-528 | every lookup in the new map misses the removed key and answers as before otherwise; an absent key gives back the very same root and no new node; otherwise every heap node of the new trie is one of the old trie or one of at most 13 branches and one leaf or bucket allocated by the call |
| `HamtMap.MapGet` | runtime/src/stdlib_map.rs:532-539 | the value stored under an equal key, or nothing, for every reachable map |
| `HamtMap.MapContains` | runtime/src/stdlib_map.rs:544-546 | true exactly when some stored key is equal |
| `HamtMap.MapLen` | runtime/src/stdlib_map.rs:556-561 | the count is the number of pairwise different keys stored |
| `HamtMap.MapForEach` | runtime/src/stdlib_map.rs:573-582 | each key is visited once, with the value a lookup of it gives, as many as the count says, in the order of the hashes |
| `HamtMap.HamtLookup` | runtime/src/stdlib_map.rs:120-167 | the lookup through hash slices, bitmap ranks and buckets agrees with its specification, whose meaning `HamtEntries.LookupIsSearch` gives |
| `HamtMap.HamtInsert` | runtime/src/stdlib_map.rs:171-273 | the array-filling insertion computes the persistent insertion, and the heap nodes of its result are those of the old subtrie and at most one new branch per level left and one new leaf or bucket |
| `HamtMap.MergeLeavesInto` | runtime/src/stdlib_map.rs:276-315 | splitting two leaves stops within the levels left and builds the specified subtrie around the old heap node, with at most one new branch per level left and one new leaf |
| `HamtMap.MergeCollisionInto` | runtime/src/stdlib_map.rs:318-354 | splitting a bucket from a leaf stops within the levels left and builds the specified subtrie around the old heap node, with at most one new branch per level left and one new leaf |
| `HamtMap.HamtRemove` | runtime/src/stdlib_map.rs:358-462 | the array-copying removal computes the persistent removal, keeping all heap nodes but at most one branch per level left and one leaf or bucket; an absent key gives back the node itself, and no new one |
| `HamtCells.CopiesReplaced` | runtime/src/stdlib_map.rs:228-236 | a branch with one child replaced adds one new node to those of the child and keeps all others |
| `HamtCells.CopiesDropped` | runtime/src/stdlib_map.rs:385-411 | so does a branch with one child left out |
| `HamtCells.CopiesSpliced` | runtime/src/stdlib_map.rs:209-227 | a leaf spliced into a branch makes two new nodes and keeps all others |
| `HamtMap.HamtForEach` | runtime/src/stdlib_map.rs:584-609 | the recursive traversal visits exactly the entries of the trie |
| `HamtMap.FindInBucket` | runtime/src/stdlib_map.rs:151-164 | the read loop over a bucket stops at the first equal key |
| `HamtLaws.InsertPuts` | runtime/src/stdlib_map.rs:171-273 | insertion keeps the prefix invariant at its depth, never yields an empty node, and puts exactly one pair, reporting a new key exactly when the key was absent |
| `HamtLaws.RemoveCuts` | runtime/src/stdlib_map.rs:358-462 | removal keeps the prefix invariant and cuts exactly one pair, or changes nothing when the key is absent |
| `HamtLaws.MergeLeavesPuts` | runtime/src/stdlib_map.rs:276-315 | merging two leaves yields a valid subtrie with both pairs |
| `HamtLaws.MergeCollisionPuts` | runtime/src/stdlib_map.rs:318-354 | merging a bucket and a leaf yields a valid subtrie with all pairs; both hashes share the path so far |
| `HamtEntries.LookupIsSearch` | runtime/src/stdlib_map.rs:120-167 | in a valid trie the guided lookup gives what a search of all entries gives |
| `HamtEntries.EntriesDistinct` | runtime/src/stdlib_map.rs:39-75 | no valid trie holds two equal keys |
| `HamtEntries.EntriesFit` | runtime/src/stdlib_map.rs:39-75 | every hash below a node agrees with the slices on the path to it |
| `HamtOrder.TraversalInOrder` | runtime/src/stdlib_map.rs:584-609 | a traversal visits the pairs by the slices of their hashes, the lowest slice first |
| `HamtOrder.NewGoesLast` | runtime/src/stdlib_map.rs:171-273 | a new pair comes last of those with the same full hash |
| `HamtShape.ReachableShape` | runtime/src/stdlib_map.rs:39-75 | every node reached from a valid root: no null child, no empty branch, children counted by the bitmap, branches only at depth 0 to 12, buckets with at least two different keys of one hash |
| `HamtShape.SharedPrefix` | runtime/src/stdlib_map.rs:143-143 | all hashes below depth d share the first d slices |
| `HamtCells.CellsReached` | runtime/src/stdlib_map.rs:39-75 | the heap nodes that the sharing bound speaks of are exactly those that child pointers lead to |
| `HamtShape.PointersLead` | runtime/src/stdlib_map.rs:39-75 | following child pointers leads to the node of the trie at the same positions |
| `Hamt.SplitDepth` | runtime/src/stdlib_map.rs:276-354 | two different hashes that share the path to a node leave a shift below 64 bits, so the merges stop by depth 12 |
| `Hashes.PathDecides` | runtime/src/stdlib_map.rs:75-77 | thirteen five-bit slices determine a 64-bit hash |
| `HashShifts.SliceIsShift` | runtime/src/stdlib_map.rs:143-143 | the slice of each of the thirteen levels is `(hash >> (depth * 5)) & 31` |
| `Bits.RankAfterSet` | runtime/src/stdlib_map.rs:209-228 | setting a free bit moves exactly the higher ranks up by one |
| `Bits.RankAfterClear` | runtime/src/stdlib_map.rs:385-411 | clearing a set bit moves exactly the higher ranks down by one |
| `Bits.RankIs` | runtime/src/stdlib_map.rs:143-147 | population count of the bits below a slot is the number of present slots before it |
| `HamtSet.SetInsert` | runtime/src/stdlib_set.rs:385-402 | membership after an insertion; an element already present gives back an equal trie and count; sharing as for the map |
| `HamtSet.SetRemove` | runtime/src/stdlib_set.rs:407-424 | membership after a removal; an absent element gives back the same set with no new node; sharing as for the map |
| `HamtSet.SetContains` | runtime/src/stdlib_set.rs:428-435 | true exactly for elements equal to one in the set |
| `HamtSet.SetLen` | runtime/src/stdlib_set.rs:439-444 | the count is the number of pairwise different elements |
| `HamtSet.SetForEach` | runtime/src/stdlib_set.rs:455-464 | the visits are pairwise different, as many as the count says, an element is held exactly when an equal one is visited, and they come in the order of the hashes |
| `HamtSet.SetHamtForEach` | runtime/src/stdlib_set.rs:466-490 | the recursive traversal visits exactly the stored keys |
| `HamtSet.SetHamtInsert` | runtime/src/stdlib_set.rs:118-203 | the set insertion is the map insertion for a new element and gives an equal trie for a present one, with at most one new branch per level left and one new leaf or bucket |
| `HamtSet.SetBucketInsert` | runtime/src/stdlib_set.rs:180-198 | a bucket keeps its keys and gets an absent one appended, in one new node; with the element present it is the same node |
| `Keys.GetAfterPut` | runtime/src/stdlib_map.rs:485-506 | on lists of pairs: what one put changes for every key, in length and in distinctness |
| `Keys.GetAfterCut` | runtime/src/stdlib_map.rs:511-528 | on lists of pairs: what one cut changes for every key, in length and in distinctness |
| `LinkedMap.LinkedMapInsert` | runtime/src/stdlib_linked_map.rs:221-277 | a new key goes to the end of the live pairs, an equal one is overwritten where it is and keeps its stored key; all arrays are new |
| `LinkedMap.LinkedMapRemove` | runtime/src/stdlib_linked_map.rs:289-349 | a present key is cut out at its place; an absent key gives a map that aliases the old arrays |
| `LinkedMap.LinkedMapGet` | runtime/src/stdlib_linked_map.rs:353-366 | the value of the equal key in the association list |
| `LinkedMap.LinkedMapLen` | runtime/src/stdlib_linked_map.rs:379-384 | the live count is the length of the list |
| `LinkedMap.LinkedMapForEach` | runtime/src/stdlib_linked_map.rs:392-407 | the visits are exactly the list, in order |
| `InsertionOrder.VisitsInOrder` | runtime/src/stdlib_linked_map.rs:195-407 | after any run a traversal visits the keys still there in the order in which they were last added, each as it was added and with the value put last |
| `InsertionOrder.ReplayInOrder` | runtime/src/stdlib_linked_map.rs:221-349 | the association list of a run stands in that order, and holds every key still there |
| `Keys.AssocInsertAt` | runtime/src/stdlib_linked_map.rs:221-277 | a new key goes to the end; an equal one is overwritten where it is |
| `Keys.AssocRemoveAt` | runtime/src/stdlib_linked_map.rs:289-349 | a present key is cut out at its place; an absent one changes nothing |
| `LinkedMap.NextPow2` | runtime/src/stdlib_linked_map.rs:99-105 | the least power of two from 8 on that is large enough |
| `Masks.MaskIsRemainder` | runtime/src/stdlib_linked_map.rs:121-121 | masking with a power of two less one, bit by bit, is the remainder |
| `LinkedMap.Next` | runtime/src/stdlib_linked_map.rs:131-131 | the masked step of a probe goes to the next slot, and around the end of the table |
| `LinkedMap.BuildIndex` | runtime/src/stdlib_linked_map.rs:109-134 | every entry gets one slot, reachable from its home slot through non-empty slots; the probe loops stop |
| `LinkedMap.IndexLookup` | runtime/src/stdlib_linked_map.rs:138-164 | a hit is a live entry with an equal key; a miss means no live entry has one |
| `LinkedMap.HalfEmpty` | runtime/src/stdlib_linked_map.rs:109-134 | as many slots are taken as there are entries ever indexed, so at least half are empty, tombstones included |
| `LinkedMap.ProbeEmpty` | runtime/src/stdlib_linked_map.rs:121-131 | probing without a wrap-around check reaches an empty slot |
| `LinkedMap.ProbeEntry` | runtime/src/stdlib_linked_map.rs:326-334 | probing for an entry index reaches the slot that holds it |
| `LinkedMap.Compacted` | runtime/src/stdlib_linked_map.rs:237-277 | compaction keeps the live pairs in order, and the remapped index is the place of the watched entry |
| `LinkedMap.IndexedAfterRemove` | runtime/src/stdlib_linked_map.rs:315-347 | tombstoning an entry and its slot keeps the index invariant |
| `LinkedMap.TombstonePairs` | runtime/src/stdlib_linked_map.rs:315-322 | a tombstone takes exactly one pair out of the list |
| `LinkedMap.MakeMap` | runtime/src/stdlib_linked_map.rs:170-189 | a fresh index over live entries makes a valid map |
| `Keys.AssocInsertGet` | runtime/src/stdlib_linked_map.rs:221-277 | the association list after an insertion, for every key, in length and distinctness |
| `Keys.AssocRemoveGet` | runtime/src/stdlib_linked_map.rs:289-349 | the association list after a removal, for every key, in length and distinctness |
| `SortedMap.BinarySearch` | runtime/src/stdlib_sorted_map.rs:68-91 | the exact hit, or the insertion point |
| `SortedMap.BoundSplits` | runtime/src/stdlib_sorted_map.rs:68-91 | below the bound all keys are smaller, above it larger, and it is a hit exactly when an equal key is present |
| `SortedMap.SortedMapInsert` | runtime/src/stdlib_sorted_map.rs:109-153 | a new key is spliced in at one place, an equal one is overwritten where it is and keeps its stored key, in new memory; the array stays ascending |
| `SortedMap.SortedMapRemove` | runtime/src/stdlib_sorted_map.rs:161-205 | a present key is cut out at its place; an absent key aliases the old array |
| `SortedMap.SortedMapGet` | runtime/src/stdlib_sorted_map.rs:209-221 | the value of the equal key |
| `SortedMap.SortedMapLen` | runtime/src/stdlib_sorted_map.rs:234-239 | the length is the number of pairwise different keys stored |
| `SortedMap.SortedMapForEach` | runtime/src/stdlib_sorted_map.rs:245-258 | the visits are the pairs in strictly ascending order |
| `SortedMap.PutAscends` | runtime/src/stdlib_sorted_map.rs:109-153 | insertion keeps the array strictly ascending |
| `SortedMap.SortedPutAt` | runtime/src/stdlib_sorted_map.rs:109-153 | a new key goes to one place, an equal one is overwritten where it is |
| `SortedMap.SortedCutAt` | runtime/src/stdlib_sorted_map.rs:161-205 | a present key is cut out at its place; an absent one changes nothing |
| `SortedMap.SortedPutGet` | runtime/src/stdlib_sorted_map.rs:109-153 | lookups and length after an insertion |
| `SortedMap.SortedCutGet` | runtime/src/stdlib_sorted_map.rs:161-205 | order, lookups and length after a removal |
| `Containers.SameAnswers` | runtime/src/stdlib_map.rs:485-561 | after any run of insertions and removals the trie map, the linked map and the sorted map give the same answer to every lookup, the set holds exactly the keys, and all four lengths are the same |
| `Containers.RunHamt` | runtime/src/stdlib_map.rs:468-528 | any run on the trie map ends with the lookups of the association list of that run |
| `Containers.RunLinked` | runtime/src/stdlib_linked_map.rs:195-349 | any run on the linked map ends with exactly the association list of that run |
| `Containers.RunSorted` | runtime/src/stdlib_sorted_map.rs:97-205 | any run on the sorted map ends with the lookups of the association list of that run |
| `Containers.RunSet` | runtime/src/stdlib_set.rs:368-424 | any run on the set ends with exactly the keys of the association list of that run |
| `Containers.ReplayStep` | runtime/src/stdlib_linked_map.rs:221-349 | what each step of a run changes in the association list |
| `SchedulerSafety.StepKeeps` | runtime/src/lib.rs:182-202 | every step of every thread keeps the whole invariant: identifiers, reference balance, single publisher, subscriptions, messages, completion log, results, joins |
| `SchedulerSafety.RunKeeps` | runtime/src/lib.rs:182-202 | so does every run |
| `SchedulerRuns.NoLostCompletion` | runtime/src/lib.rs:609-636 | a dispatcher blocked on an empty channel has a live sender with every source, all still pending, so receiving cannot fail |
| `SchedulerRuns.CompletionWakes` | runtime/src/lib.rs:182-202 | any completion of one of its sources makes the receive possible and decides the select with that result |
| `SchedulerRuns.SelectWinner` | runtime/src/lib.rs:613-644 | a done select has the value of the source that completed first of all if all were pending while subscribing, else of the first source in list order found done |
| `SchedulerSelect.SurelyFirstExactly` | runtime/src/lib.rs:613-644 | a select returns the source that completed first in every run from here exactly when it lists one source only, or the first listed is done already and completed before the others |
| `SchedulerSelect.EarlyMisses` | runtime/src/lib.rs:613-623 | a source found done while subscribing settles the select, and it is not the one that completes first exactly when some listed source completed before it |
| `SchedulerSelect.TwoTasksMayMiss` | runtime/src/lib.rs:613-623 | with any number of workers, two tasks and a select over them have a run in which the select does not return the one that completed first |
| `SchedulerRuns.ResultComesFromThunk` | runtime/src/lib.rs:575-651 | through any nesting of selects a result is one that the thunk of a spawned task returned |
| `SchedulerRuns.ReferencesConserved` | runtime/src/lib.rs:466-513 | a strong count equals unconsumed handles, plus the queued or running job or publishing dispatcher, plus dispatcher clones, plus joins in progress |
| `SchedulerRuns.NoUseAfterFree` | runtime/src/lib.rs:501-513 | with each handle joined at most once, no step touches a task whose count is zero |
| `SchedulerRuns.JoinInOrder` | runtime/src/lib.rs:522-538 | a join collects the results of its tasks in handle order, whatever the completion order |
| `SchedulerCalls.JoinAnswers` | runtime/src/lib.rs:522-538 | a join collects the results of the handles passed, in the order passed, and all of them by the time nothing can move |
| `SchedulerCalls.SpawnAnswers` | runtime/src/lib.rs:466-486 | a spawn hands out a new handle; its thunk returns at most once in any run, and a done task has the result its thunk returned in that run |
| `SchedulerCalls.FirstSpawnedTaken` | runtime/src/lib.rs:182-184 | a worker takes the job that was spawned first of those waiting |
| `SchedulerCalls.SelectAnswers` | runtime/src/lib.rs:575-651 | a select of the handles passed hands out a new handle; if its task is done, either all sources were pending when examined, in the order passed, and the result is that of the first completion, or those before the k-th were, and the result is that of the k-th |
| `SchedulerCalls.NothingLeaks` | runtime/src/lib.rs:466-513 | once nothing can move and no caller holds a handle, every strong count is zero |
| `SchedulerRuns.DoneForever` | runtime/src/lib.rs:182-202 | a task becomes done once: its result never changes and the log lists it once |
| `SchedulerSafety.CompletionArrives` | runtime/src/lib.rs:182-202 | a completion sends its result to every subscribed dispatcher, keeping the channel contents explained by the completion log |
| `SchedulerSafety.SubscriptionsKept` | runtime/src/lib.rs:609-636 | waiter lists and subscriptions stay in step, between the subscribe loop and completing workers |
| `SchedulerSafety.MessagesKept` | runtime/src/lib.rs:609-648 | every message and every decision of a dispatcher stays explained by the first completion among its sources |
| `SchedulerSafety.JoinsKept` | runtime/src/lib.rs:501-538 | what a join has collected stays the results of its tasks |
| `SchedulerSafety.ResultsKept` | runtime/src/lib.rs:182-202 | results come from thunks or sources |
| `SchedulerInvariants.ConservedKept` | runtime/src/lib.rs:466-513 | every step keeps the reference balance |
| `SchedulerInvariants.OnePublisherKept` | runtime/src/lib.rs:150-202 | every pending task keeps exactly one publisher, every done one has none left |
| `SchedulerInvariants.StepGrows` | runtime/src/lib.rs:182-202 | a step only adds tasks, completions and log entries |
| `SchedulerProgress.PendingMoves` | runtime/src/lib.rs:166-202 | while a task is pending, with a worker present and thunks that return, an internal step is possible |
| `SchedulerProgress.MeasureDrops` | runtime/src/lib.rs:166-202 | every internal step lowers a measure |
| `SchedulerProgress.InternalRunsEnd` | runtime/src/lib.rs:166-202 | so the runtime left alone stops |
| `SchedulerProgress.StillMeansDone` | runtime/src/lib.rs:166-202 | and when it stops every task is done and every join has all its results |
| `JsonRoundTrip.DocumentExactly` | runtime/src/stdlib_json.rs:373-380 | the parser accepts a text as a rendering exactly when it is that rendering: every choice of white space, escapes and digits is read back, and nothing else is accepted |
| `JsonRoundTrip.RenderingUnambiguous` | runtime/src/stdlib_json.rs:158-380 | no text renders two values |
| `JsonRoundTrip.ValueExactly` | runtime/src/stdlib_json.rs:158-170 | each kind of value is read back from its rendering |
| `JsonRoundTrip.PiecesExactly` | runtime/src/stdlib_json.rs:250-304 | each string body is read back, escape by escape |
| `JsonRoundTrip.ElementsExactly` | runtime/src/stdlib_json.rs:306-335 | each non-empty element list is read back |
| `JsonRoundTrip.MembersExactly` | runtime/src/stdlib_json.rs:337-371 | each non-empty member list is read back |
| `JsonRoundTrip.NumberExactly` | runtime/src/stdlib_json.rs:205-230 | each integer is read back, the sign and all digits, when no digit, point or exponent follows |
| `JsonLaws.ReadValueText` | runtime/src/stdlib_json.rs:158-170 | a value that was read renders to the text it was read from |
| `JsonLaws.ReadPiecesText` | runtime/src/stdlib_json.rs:250-304 | a string that was read renders to the text it was read from |
| `JsonValues.ParsesToRepresentable` | runtime/src/stdlib_json.rs:64-71 | the values documents parse to are exactly those within the range of an i64 and free of NUL |
| `JsonValues.RenderDenotes` | runtime/src/stdlib_json.rs:205-304 | every such value has a rendering, with no leading zero and no raw control character, that denotes it |
| `JsonStandard.AcceptedIsJson` | runtime/src/stdlib_json.rs:158-380 | an accepted text is a document by the grammar of RFC 8259 exactly when it is in UTF-8 and a scan of its bytes meets no leading zero and no raw control character |
| `JsonStandard.JsonIsAccepted` | runtime/src/stdlib_json.rs:158-380 | a document by that grammar is accepted exactly when it holds no fraction or exponent, no integer outside an `i64`, no surrogate escape without its other half and no escaped NUL |
| `JsonStandard.UnpairedRefused` | runtime/src/stdlib_json.rs:266-285 | a string with half of a surrogate pair is refused wherever it stands |
| `JsonScan.TidyIsStrict` | runtime/src/stdlib_json.rs:205-304 | the scan of an accepted text stops exactly when its reading has a leading zero or a raw control character |
| `JsonStandard.LeadingZeroAccepted` | runtime/src/stdlib_json.rs:205-230 | the text `01` is accepted, as the number one, and is no document |
| `JsonStandard.RawByteAccepted` | runtime/src/stdlib_json.rs:250-304 | a string of one control character, or of one byte that is not UTF-8, is accepted and is no document |
| `JsonStandard.EscapeRefused` | runtime/src/stdlib_json.rs:266-304 | a string of one escape that is half of a pair or NUL is a document and is refused |
| `JsonStandard.IntegerRefused` | runtime/src/stdlib_json.rs:205-230 | the decimal digits of any number past an `i64` are a document and are refused |
| `JsonStandard.DecimalsRefused` | runtime/src/stdlib_json.rs:222-225 | the texts `0.5` and `1e2` are documents and are refused |
| `JsonWriting.JsonCarries` | runtime/src/stdlib_json.rs:64-71 | the values that documents are read as are exactly those within an `i64`, free of NUL and in UTF-8 |
| `JsonParser.Parse` | runtime/src/stdlib_json.rs:373-380 | every rendering of a value parses to that value; whatever parses is a rendering of the result; a failure carries the fault and its line and column |
| `JsonMeaning.LiteralsMean` | runtime/src/stdlib_json.rs:177-203 | `null`, `true` and `false`, byte by byte, parse to the values they name |
| `JsonMeaning.DigitMeans` | runtime/src/stdlib_json.rs:205-230 | each single digit, with or without a sign, parses to its number |
| `JsonMeaning.NextDigitMeans` | runtime/src/stdlib_json.rs:205-230 | one digit more parses to ten times the number and the digit, within an `i64`, and is refused otherwise |
| `JsonMeaning.EmptyStringMeans` | runtime/src/stdlib_json.rs:250-304 | two quotes parse to the empty string |
| `JsonMeaning.ByteMeans` | runtime/src/stdlib_json.rs:250-304 | one raw byte more in a string adds that byte |
| `JsonMeaning.EscapeMeans` | runtime/src/stdlib_json.rs:256-264 | each of the eight two-character escapes adds the byte that RFC 8259, section 7, gives it |
| `JsonMeaning.UnicodeMeans` | runtime/src/stdlib_json.rs:265-291 | a `\u` escape with hexadecimal digits in either case adds its character in UTF-8 |
| `JsonMeaning.PairMeans` | runtime/src/stdlib_json.rs:271-283 | a surrogate pair adds the one character it stands for |
| `JsonMeaning.CharactersEncode` | runtime/src/stdlib_json.rs:286-289 | the UTF-8 bytes of a character of each length |
| `JsonMeaning.ArrayMeans` | runtime/src/stdlib_json.rs:306-335 | texts between brackets with commas parse to the array of what they parse to, in order |
| `JsonMeaning.ObjectMeans` | runtime/src/stdlib_json.rs:337-371 | names, colons and texts between braces with commas parse to the object of what they parse to, in order, repeated names included |
| `JsonMeaning.EmptyMeans` | runtime/src/stdlib_json.rs:306-371 | brackets or braces around white space parse to the empty array or object |
| `JsonMeaning.WhiteMeans` | runtime/src/stdlib_json.rs:137-145 | white space around a text does not change what it parses to |
| `JsonMeaning.CharacterSets` | runtime/src/stdlib_json.rs:137-145 | which bytes are white space, escape letters, digits and hexadecimal digits, and that no others are |
| `JsonFaults.FaultsAreReal` | runtime/src/stdlib_json.rs:104-380 | a refused text has the fault that is reported, at the line and column reported |
| `JsonParser.Parser.ParseValue` | runtime/src/stdlib_json.rs:158-170 | the result and the new position, or the fault and its position, are those of the reading function |
| `JsonParser.Parser.ParseString` | runtime/src/stdlib_json.rs:250-304 | the buffer loop yields the decoded bytes of the string, or the fault |
| `JsonParser.Parser.ParseEscape` | runtime/src/stdlib_json.rs:256-297 | one escape yields its bytes, or the fault |
| `JsonParser.Parser.ParseUnicode` | runtime/src/stdlib_json.rs:266-291 | a `\u` escape, alone or as a surrogate pair, yields the UTF-8 bytes of a scalar value, so the check for an invalid scalar is never the one that fails |
| `JsonParser.Parser.ParseHex4` | runtime/src/stdlib_json.rs:233-248 | four hexadecimal digits, or the fault and where it is |
| `JsonParser.Parser.ParseArray` | runtime/src/stdlib_json.rs:306-335 | the loop collects exactly the elements, or stops at the fault |
| `JsonParser.Parser.ParseObject` | runtime/src/stdlib_json.rs:337-371 | the loop collects exactly the members, repeated names included, or stops at the fault |
| `JsonParser.Parser.ParseMember` | runtime/src/stdlib_json.rs:349-354 | a name, its colon and its value |
| `JsonParser.Parser.ParseNumber` | runtime/src/stdlib_json.rs:205-230 | an integer within i64; floats, overflow and missing digits are faults |
| `JsonParser.Parser.ParseLiteral` | runtime/src/stdlib_json.rs:190-203 | a literal, or a fault just after the first byte that differs |
| `JsonParser.Parser.ParseDocument` | runtime/src/stdlib_json.rs:373-380 | one value and nothing after it |
| `JsonParser.Parser.SkipWhite` | runtime/src/stdlib_json.rs:137-145 | the position moves to the first byte that is no white space |
| `JsonParser.Parser.Bump` | runtime/src/stdlib_json.rs:125-135 | line and column stay those of the position |
| `JsonParser.ColumnMeaning` | runtime/src/stdlib_json.rs:125-135 | a column counts back to the start of its line |
| `JsonParser.LineMeaning` | runtime/src/stdlib_json.rs:125-135 | a line number is one more than the line feeds before it |
| `JsonUnicode.SurrogatesInvert` | runtime/src/stdlib_json.rs:271-283 | a surrogate pair decodes to exactly the scalar it encodes |
| `JsonUnicode.EncodedOnce` | runtime/src/stdlib_json.rs:286-289 | the UTF-8 encoding of a scalar is one well-formed character and decodes to that scalar |
| `JsonUnicode.PiecesValid` | runtime/src/stdlib_json.rs:250-304 | decoding a string that stands in valid UTF-8 yields valid UTF-8 |
| `JsonUnicode.AcceptedStringsValid` | runtime/src/stdlib_json.rs:482-482 | a document in valid UTF-8 yields only strings and keys in valid UTF-8, so no string is replaced by the empty one |
| `JsonNodes.ToGc` | runtime/src/stdlib_json.rs:441-532 | the node tree is new memory and stores exactly the value |
| `JsonNodes.StoreChildren` | runtime/src/stdlib_json.rs:488-527 | the pointer array holds the trees of all children |
| `JsonNodes.DenotesOnce` | runtime/src/stdlib_json.rs:391-408 | no node tree stores two values |
| `JsonNodes.ScalarsRead` | runtime/src/stdlib_json.rs:639-692 | the kind words, the tests for a kind and the scalar accessors tell the stored kind and scalar, and give neutral values for another kind |
| `JsonNodes.Get` | runtime/src/stdlib_json.rs:699-719 | the value of the first member with the key, or null exactly when there is none or the handle is no object |
| `JsonNodes.ItemAt` | runtime/src/stdlib_json.rs:723-738 | the element at the index, or null out of range or off an array |
| `JsonNodes.ParseToNode` | runtime/src/stdlib_json.rs:564-592 | a text gives a node exactly when it parses, and the node stores the parsed value |
| `JsonReadBack.Follow` | runtime/src/stdlib_json.rs:699-738 | along any sequence of `at` and `get` from the root, the handle reached is null exactly when the value has no such part, and otherwise denotes that part |
| `JsonReadBack.ReadText` | runtime/src/stdlib_json.rs:564-738 | a text parsed, a path followed and the scalars read give what the part of the parsed value there holds, or neutral values when the text or the path fails |
| `JsonReadBack.ReadingsRebuild` | runtime/src/stdlib_json.rs:639-738 | two values read alike along all paths exactly when they are the same up to the order of members and to later members with a repeated name |
| `Paths.NormalizePath` | tools/tyra-pkg/src/lib.rs:869-886 | the stack loop yields the normal form that the four lemmas below characterize |
| `Paths.NormalizeIdempotent` | tools/tyra-pkg/src/lib.rs:869-886 | normalizing twice changes nothing more |
| `Paths.NormalizeNormal` | tools/tyra-pkg/src/lib.rs:869-886 | a normal form has no `.` and `..` only ahead of all names |
| `Paths.NormalizeKeepsPlace` | tools/tyra-pkg/src/lib.rs:869-886 | normalizing keeps the place a path leads to, from any directory (without symbolic links) |
| `Paths.PlaceDecides` | tools/tyra-pkg/src/lib.rs:869-886 | absolute paths that do not climb above the root normalize alike exactly when they lead to the same place |
| `Paths.PathRelativeTo` | tools/tyra-pkg/src/lib.rs:889-906 | the loops yield the relative path whose way back the round trip gives, `.` when it would be empty |
| `Paths.RelativeRoundTrip` | tools/tyra-pkg/src/lib.rs:889-906 | joining the base and normalizing gives back the normalized path, exactly when the base does not climb above the root beyond the shared prefix |
| `Paths.RelativeShortest` | tools/tyra-pkg/src/lib.rs:889-906 | no other relative path from the base to the same normal path has fewer components |
| `Paths.ClimbingBaseLost` | tools/tyra-pkg/src/lib.rs:889-906 | from `/..` the path made for `/a` does not lead back |
| `Paths.RelativeInjective` | tools/tyra-pkg/src/lib.rs:1044-1049 | from a root that does not climb, distinct normalized paths get distinct lockfile sources |
| `Resolver.Walker.Resolve` | tools/tyra-pkg/src/lib.rs:1019-1185 | the walk over the shared map ends with the map, or the error, of the specification |
| `Resolver.Walker.ResolvePath` | tools/tyra-pkg/src/lib.rs:1039-1084 | a path dependency ends with the specified map or error: a package already filed must have the same name; a new one needs a free name first, then a sound root, and is filed before its own dependencies are visited |
| `Resolver.Walker.ResolveGit` | tools/tyra-pkg/src/lib.rs:1085-1180 | a git dependency ends with the specified map or error: a branch is looked up first; a package already filed must agree in name, revision and branch; a new one is fetched and checked before its name is looked up |
| `ResolverLaws.ResolvedExactly` | tools/tyra-pkg/src/lib.rs:1019-1185 | after success a request is reached from the root if and only if it is filed with that name, revision and branch |
| `ResolverLaws.NamesDistinct` | tools/tyra-pkg/src/lib.rs:1050-1056 | after success no two packages share a name |
| `ResolverLaws.VisitGrows` | tools/tyra-pkg/src/lib.rs:1019-1185 | each visit only adds packages, each reached from where the visit started and with its own dependencies filed |
| `ResolverSuccess.ResolvesConsistent` | tools/tyra-pkg/src/lib.rs:1019-1185 | with at most 32 packages reached, resolution succeeds exactly on consistent graphs, cycles or not |
| `ResolverSuccess.ResolvedConsistent` | tools/tyra-pkg/src/lib.rs:1019-1185 | whatever resolves is consistent |
| `ResolverMeaning.FiledSound` | tools/tyra-pkg/src/lib.rs:1059-1180 | a filed package has a manifest of its name and version and a library root module in its home; a git package has a revision that was fetched |
| `ResolverMeaning.DependenciesFiled` | tools/tyra-pkg/src/lib.rs:1037-1180 | each dependency that the manifest of the root or of a filed package declares is filed under the place it names, with that name, revision and branch |
| `ResolverMeaning.FiledCalledFor` | tools/tyra-pkg/src/lib.rs:1037-1180 | each filed package is one that such a manifest calls for |
| `ResolverMeaning.DeclaresMeans` | tools/tyra-pkg/src/lib.rs:1037-1094 | the edges of the graph are what the manifests ask for |
| `ResolverMeaning.BranchesKnownMeans` | tools/tyra-pkg/src/lib.rs:1087-1091 | branches are known exactly when each branch followed has a revision |
| `ResolverMeaning.ResolvesReady` | tools/tyra-pkg/src/lib.rs:1019-1185 | with at most 32 packages reached, success means: the root has a manifest, each request reached has a fetched revision and a library package of its name, each branch exists, and no two requests share a source or a name without being the same |
| `ResolverErrors.ErrorsAreReal` | tools/tyra-pkg/src/lib.rs:1019-1185 | each error names a fault the graph has: a straight chain of more than 32 requests, a missing manifest, a wrong name, a root module that is missing or a program, an unknown branch, a failed fetch, two sources of one name, two revisions of one source |
| `ResolverErrors.LongLineFails` | tools/tyra-pkg/src/lib.rs:1027-1032 | a chain of more than 32 packages, each declaring the next one only, does not resolve |
| `Lockfile.Collector.CollectFrom` | tools/tyra-pkg/src/lib.rs:976-999 | the walk over path dependencies ends with the set, or the error, of the specification |
| `Lockfile.WriteLock` | tools/tyra-manifest/src/lockfile.rs:109-120 | the lockfile holds exactly the resolved packages, in the order of their names |
| `Lockfile.SyncLocked` | tools/tyra-pkg/src/lib.rs:462-608 | success exactly when every direct dependency, the two sets of path sources and every locked package check out; the report names the cached and the path packages; a refusal names something that does not |
| `Lockfile.CheckDirect` | tools/tyra-pkg/src/lib.rs:468-546 | a direct dependency passes exactly when the first package with its source fits it |
| `Lockfile.BeforeIs` | tools/tyra-manifest/src/lockfile.rs:109-120 | names are ordered by their first difference, a proper prefix first |
| `Lockfile.NamesAre` | tools/tyra-pkg/src/lib.rs:578-608 | the report names each locked package once, in the list of those with a revision or of those without |
| `LockfileLaws.CollectExactly` | tools/tyra-pkg/src/lib.rs:976-999 | with at most 32 path packages the check finds exactly the sources path edges reach |
| `LockfileLaws.SourceOnce` | tools/tyra-pkg/src/lib.rs:988-993 | distinct directories have distinct sources |
| `LockfileSuccess.AcceptanceMeans` | tools/tyra-pkg/src/lib.rs:462-608 | acceptance means the locked path sources are the live closure, and every direct dependency is locked with its source, name and constraint |
| `LockfileSuccess.DirectMeans` | tools/tyra-pkg/src/lib.rs:468-546 | a direct dependency passes exactly when the first package locked with its source has its name and constraint and a path leads to a library package of that name |
| `LockfileSuccess.AcceptedPresent` | tools/tyra-pkg/src/lib.rs:578-608 | every package of an accepted lockfile is at hand: in the cache, or a library package of its name where its source leads |
| `LockfileSuccess.FreshLockAccepted` | tools/tyra-pkg/src/lib.rs:418-608 | a freshly written lockfile is accepted exactly when direct path dependencies carry neither revision nor branch and every path package is reached by path edges alone |
| `LockfileSuccess.GitClosedReached` | tools/tyra-pkg/src/lib.rs:462-608 | the second condition holds when no git package declares a path dependency |
| `Sync.RunSync` | tools/tyra-pkg/src/lib.rs:418-448 | a sync succeeds exactly when resolution does, and writes what was resolved |
| `Sync.RevisedPathRefused` | tools/tyra-pkg/src/lib.rs:491-499 | a project whose path dependency idly names a revision resolves, and its fresh lockfile is refused |
| `Sync.GitPathRefused` | tools/tyra-pkg/src/lib.rs:570-576 | a project whose git package brings in a path package resolves, and its fresh lockfile is refused |
| `CoverageMap.BuildCovMap` | compiler/crates/tyra-codegen-llvm/src/coverage.rs:43-86 | counters are dense and numbered in the order lines are first seen; entry i holds counter i, its line and the first function entered there; each function name leads to the counter of its entry |
| `CoverageMap.CovMap.GetOrAssign` | compiler/crates/tyra-codegen-llvm/src/coverage.rs:88-113 | one more place is numbered, earlier counters stay |
| `CoverageMap.SitesAreBlocks` | compiler/crates/tyra-codegen-llvm/src/coverage.rs:43-86 | the numbered lines are exactly those of function entries and labels that have a location |
| `CoverageMap.CountersAreBlocks` | compiler/crates/tyra-codegen-llvm/src/coverage.rs:88-113 | a line has a counter exactly when a block starts there, and the counter leads to its own entry |
| `CoverageMap.FirstNonDummyLoc` | compiler/crates/tyra-codegen-llvm/src/coverage.rs:115-117 | the first real location |
| `CoverageBlocks.BlockIs` | compiler/crates/tyra-codegen-llvm/src/coverage.rs:35-41 | a block is where the first statement with a real line from its start on is |
| `CoverageBlocks.EntryOfIs` | compiler/crates/tyra-codegen-llvm/src/coverage.rs:49-60 | a function name leads to the entry of the last function of that name that has a location |
| `CoverageBlocks.NameAtIs` | compiler/crates/tyra-codegen-llvm/src/coverage.rs:88-99 | an entry names the first function that enters at its line, and no function exactly when none does |
| `CoverageBlocks.CountersInOrder` | compiler/crates/tyra-codegen-llvm/src/coverage.rs:43-86 | a line with a block before all blocks of another line has the smaller counter |
| `CoverageText.CovmapRoundTrip` | compiler/crates/tyra-codegen-llvm/src/coverage.rs:182-257 | a written map parses back to itself exactly when no path or function name holds a line feed or ends in a carriage return |
| `CoverageText.LineFeedLost` | compiler/crates/tyra-codegen-llvm/src/coverage.rs:182-257 | the map of a file whose name is a line feed does not parse back |
| `CoverageText.WriteCovmapText` | compiler/crates/tyra-codegen-llvm/src/coverage.rs:182-204 | the loops write exactly the lines that the round trip is proved for |
| `CoverageText.ParseCovmap` | compiler/crates/tyra-codegen-llvm/src/coverage.rs:223-257 | the loops stop exactly where a line is missing or malformed, and otherwise return what the lines parse to |
| `CoverageText.LinesOfText` | compiler/crates/tyra-codegen-llvm/src/coverage.rs:223-224 | splitting joined lines gives the lines back, less a carriage return at the end of each |
| `CoverageFormat.WrittenLines` | compiler/crates/tyra-codegen-llvm/src/coverage.rs:182-204 | the lines of a written map, in order, with the words and counts that head them |
| `CoverageFormat.WrittenEntry` | compiler/crates/tyra-codegen-llvm/src/coverage.rs:187-203 | how a file and a counter are written |
| `CoverageFormat.DecimalShort` | compiler/crates/tyra-codegen-llvm/src/coverage.rs:182-204 | numbers are written without leading zeros |
| `CoverageFormat.DigitsValue` | compiler/crates/tyra-codegen-llvm/src/coverage.rs:228-228 | digits are read with the most significant first |
| `CoverageFormat.ParsesWhatIsSaid` | compiler/crates/tyra-codegen-llvm/src/coverage.rs:223-257 | lines parse to a map exactly when they say it: header, counts, and as many file and counter lines, numbers in 32 bits with or without a plus sign |
| `CoverageFormat.LastLine` | compiler/crates/tyra-codegen-llvm/src/coverage.rs:223-224 | a last line without a line feed counts as it is |
| `CoverageMerge.MergeCovraw` | compiler/crates/tyra-codegen-llvm/src/coverage.rs:263-288 | a result exactly when some file is usable, and then the saturating sums over the files in the order listed |
| `CoverageMerge.RecordsMerge` | compiler/crates/tyra-codegen-llvm/src/coverage.rs:278-284 | a file of eight-byte records holds their little-endian two's complement values in order, and merged alone it gives exactly those |
| `CoverageMerge.UsableRecord` | compiler/crates/tyra-codegen-llvm/src/coverage.rs:281-283 | counter i of a usable file is the value of its bytes 8i to 8i + 7 |
| `CoverageMerge.OthersIgnored` | compiler/crates/tyra-codegen-llvm/src/coverage.rs:265-278 | a file of another name or length, or an unreadable one, adds nothing |
| `CoverageMerge.OrderMattersNot` | compiler/crates/tyra-codegen-llvm/src/coverage.rs:281-284 | a counter merges alike in all orders of the directory exactly when its gains or its losses are none, or the sum of each fits an `i64` |
| `CoverageMerge.MergedIsClampedSum` | compiler/crates/tyra-codegen-llvm/src/coverage.rs:281-284 | then the merge is the sum of gains and losses, clamped once |
| `CoverageMerge.CountsUpSafe` | compiler/crates/tyra-codegen-llvm/src/coverage.rs:281-284 | counters without negative counts are among those |
| `CoverageMerge.MergedIsCappedSum` | compiler/crates/tyra-codegen-llvm/src/coverage.rs:263-288 | without negative counts the merge is the sum, capped |
| `CoverageMerge.MergedAnyOrder` | compiler/crates/tyra-codegen-llvm/src/coverage.rs:263-288 | two orders of a directory merge alike whenever the gains or the losses of a counter are none, or both fit an `i64` |
| `CoverageMerge.MergedHit` | compiler/crates/tyra-codegen-llvm/src/coverage.rs:263-288 | a merged counter is positive exactly when some run hit it |
| `CoverageMerge.NegativeOrderMatters` | compiler/crates/tyra-codegen-llvm/src/coverage.rs:281-284 | three files, one with a negative count, whose order matters |

## Left out

- The child and entry arrays of a heap node are sequences that are built in a fresh array and then fixed: a node has constant fields, so that no operation writes to it is checked by the language.
- HamtMap.MapRemove: a canonical shape is not claimed, since a removal keeps branches with a single child; the copied handle is a value.
- HamtSet.SetRemove: the set's lookup, removal and merges are those of the map with nothing stored under the keys; only its insertion differs and is written out.
- LinkedMap.NextPow2: `usize` is unbounded here, so the doubling does not wrap.
- HamtMap.MapLen: counts are unbounded, not `i64` or `u32`.
- Null handles and null keys, which the source guards against, and allocation failure.
- The Boehm collector, raw pointers, the C ABI and the callbacks' context pointers; a traversal is the list of its callbacks.
- Hash functions and string comparison callbacks, and their quality.
- The sorted and linked sets, the string, float, list and time modules, and the HTTP client and server.
- SchedulerProgress.StillMeansDone: thunks do not wait on tasks; a pool whose workers all wait inside thunks can be stuck.
- All sends of one completion are a single step, with its place in one global log of completions. In the source the sends of two completions run under the mutexes of two tasks, so two dispatchers may receive them in different orders, which the model does not show.
- Await and join share one model: an await is a join of a single handle.
- SchedulerRuns.NoUseAfterFree: callers pass only handles they still own and join each at most once, as the source demands; a select consumes none; freeing is the count reaching zero.
- Thread registration, worker count, shutdown, poisoned locks and memory order below the mutexes.
- JSON error messages are an enumeration without the offending character; the thread-local error state and its accessors are not modelled.
- JsonNodes.ToGc: allocation always succeeds; scalars stored in nodes are not machine words.
- The depth of recursion of the parser and the tree conversion.
- Resolver.Walker.Resolve: sorting dependencies by key is taken as the order of the manifest; the report of fresh and cached packages is not modelled, and validation errors carry less text.
- ResolverLaws.ResolvedExactly: manifests, branches and the cache do not change during a run; symbolic links are not modelled, so a path is looked up by its normal form.
- Keys separate directories from git URLs, where the code has one string map: no URL is an absolute path.
- Sources are structured, where the lockfile has text; reading and writing TOML is not modelled.
- Lockfile.WriteLock: names are compared by code unit, and equal names do not occur, so the stability of the sort plays no part.
- LockfileLaws.CollectExactly: beyond 32 path packages the check's walk may stop early; the order of its hash map is that of the manifest.
- The project root is as `canonicalize` returns it, absolute and without `..`; the fallback for a missing directory is not modelled. The cache lies under an absolute home directory.
- The git commands, cloning and cache directory hashing, and the other subcommands of the package tool.
- CoverageMap.BuildCovMap: counters are unbounded, not `u32`; columns are dropped.
- The emitted IR, the report with its percentages, and reading directories; a raw file is its bytes.
- The formatter: the Tyra parser it should round-trip with is not part of this model.
- The type checker, the intermediate representation and the code generator.
