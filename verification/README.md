# A verified model of the relevance server

The server keeps *centroids*, sums of the word scores of the documents that belong to them, and answers how similar a
document is to a centroid.  This project models the parts of it whose behaviour is hard to see from the code, and
proves what they are for.  Each module follows one source file or one group of files.

| module | what it models |
|---|---|
| `UpdateWorker` | the recalculation of centroids as a state machine: joins, exclusion, failures, stop |
| `Debouncer` | the timed queue in front of it |
| `Freshness` | the stamps that say whether a centroid is up to date, and the join that asks them |
| `CentroidUpdater` | one recalculation: the loops over pages and batches, what they load, save and ask to be removed |
| `Persistence`, `KeyValueStore`, `Lexicographic` | the two-way membership index on an ordered key-value store |
| `VersionedPointers` | the reference-counted pointers and the concurrent map readers take snapshots from |
| `Scoring` | word vectors, similarity, and the accumulators of documents and words |
| `Tokenizer`, `Unicode` | the tokenizer that normalises UTF-8 text in place |
| `SnowballRuntime`, `PrefixTables`, `EnglishTables`, `EnglishRules`, `EnglishStemmer` | the stemmer's runtime, its look-up tables, the rules of the English stemmer, and the generated code that runs them |
| `EnglishRuleLaws`, `EnglishLaws` | what the rules are, letter by letter, and which stems words get |
| `BipartiteMatching` | the maximum matching behind unordered element matchers |
| `BlockTree` | the generator of the look-up of Unicode blocks, as a compiler |
| `SimpleRegex` | the backtracking matcher of the test library |
| `Wrappers` | `Option` |

Where a function says what the code computes, laws beside it say in plain terms what that function gives: the letters
each rule of the stemmer leaves and the stems its steps in order come to, the value each operation on the store leaves
under each key, the number a score is.

Three shapes recur.  Code that changes an object is a class whose methods are proved against functions or predicates,
and the theorems are about those.  Concurrent code is a machine of atomic steps, and the theorems range over all runs.
Where a property one would expect is false of the code, the code is kept, a lemma builds a state that shows the
failure, and another states exactly when the property holds:

* an answered join may come from a calculation that began before it (`UpdateWorker.AnsweredAfreshIffNobodyHalfway`);
  joins on a centroid whose calculation can fail may never be answered (`UpdateWorker.JoinsAnsweredIffCannotFail`);
  `join` may return before an updater starts (`UpdateWorker.JoinIsFinalIffNobodyAdmitted`);
* a debounced write can get lost, but not with the delays the constructor sets (`Debouncer.AnswersInTimeIffSufficient`);
  and its `join` may return before a flight begins (`Debouncer.JoinIsFinalIffNobodyEnters`);
* a true verdict may be wrong on a clock that repeats itself, when stamps overtake one another, or when a run has the
  wrong document removed, which nobody stamps (`Freshness.VouchesIff`); runs never do so exactly if one batch covers a
  page or the centroid (`CentroidUpdater.RunsAimedIff`, `CentroidUpdater.VouchesIffOneBatch`), and the updater's pages
  of 500 and batches of 20 leave larger centroids open to it;
* consecutive batches and pages share a document, the last page is skipped unless full, and from the second batch on
  the wrong document is asked to be removed (`CentroidUpdater.EachOnceIffSmall`, `CentroidUpdater.BlameIffOneBatch`);
* a deleted member leaves one of its two keys behind, after which the listing of unused documents may be wrong
  (`Persistence.AlwaysAgreeIffCareful`, `Persistence.UnusedStaysRightIffAgree`);
* the reported end of a token may be inside the separator that follows it, or behind it (`Tokenizer.EndExactIff`).

In each case the module's theorems say for which inputs, delays, sizes or settings the code does what it is for.

## Model

| member | source | states |
|---|---|---|
| UpdateWorker.ReachableInv | src/centroid_update_worker/CentroidUpdateWorker.cpp:46-192 | in every state of every interleaving, whatever fails and whenever stop comes: owners are exclusive, the counter is exact, every callback is in exactly one list, and a waiting one has someone on the way |
| UpdateWorker.OneUpdaterPerCentroid | src/centroid_update_worker/CentroidUpdateWorker.cpp:79-92 | two updaters never work on one centroid at the same time |
| UpdateWorker.FiresAtMostOnce | src/centroid_update_worker/CentroidUpdateWorker.cpp:123-138 | no callback is called twice, and none that was not registered |
| UpdateWorker.StuckIffQuiescent | src/centroid_update_worker/CentroidUpdateWorker.cpp:65-139 | the worker has no step left to take on its own exactly when every task is done, every joiner has called update and no decrement is to come |
| UpdateWorker.ComesToRest | src/centroid_update_worker/CentroidUpdateWorker.cpp:65-139 | left alone, the worker stops within a bound computed from its state, whichever steps it takes |
| UpdateWorker.NobodyLeftWaiting | src/centroid_update_worker/CentroidUpdateWorker.cpp:104-138 | at rest without stop, a callback that has not fired waits for a centroid whose last calculation failed |
| UpdateWorker.EveryJoinIsAnswered | src/centroid_update_worker/CentroidUpdateWorker.cpp:162-170 | at rest without stop, with no calculation's last outcome a failure, exactly the registered callbacks have fired |
| UpdateWorker.JoinsAnsweredIffCannotFail | src/centroid_update_worker/CentroidUpdateWorker.cpp:102-113 | if only calculations of a given set of centroids may fail, all joins on a centroid are answered on every run that comes to rest without stop if and only if the centroid is not in the set |
| UpdateWorker.FailureStrandsAJoin | src/centroid_update_worker/CentroidUpdateWorker.cpp:108-111 | for every centroid that may fail, a run after which its only join is never answered |
| UpdateWorker.AnsweredAfreshIffNobodyHalfway | src/centroid_update_worker/CentroidUpdateWorker.cpp:80-131 | on every run the callback registered now is taken by a calculation that begins later, if and only if no calculation of its centroid is running, or has succeeded and not yet taken the callbacks |
| UpdateWorker.JoinCanGetTheRunBeforeIt | src/centroid_update_worker/CentroidUpdateWorker.cpp:162-170 | for every centroid, a reachable state from which a join can be answered by a calculation that began before it |
| UpdateWorker.JoinReturns | src/centroid_update_worker/CentroidUpdateWorker.cpp:182-192 | at rest the counter that `join` polls is zero |
| UpdateWorker.JoinIsFinalIffNobodyAdmitted | src/centroid_update_worker/CentroidUpdateWorker.cpp:86-90 | when `join` sees a zero counter after stop no updater is at work; one can still start later if and only if some task has read the stop flag and is not yet counted |
| UpdateWorker.JoinCanReturnEarly | src/centroid_update_worker/CentroidUpdateWorker.cpp:182-192 | a run in which `join` can return and an updater starts after it |
| Debouncer.ReachableInv | src/util/Debouncer.h:42-98 | in every timed run, with other threads between a write's look at the stop flag and its entry: counter and set agree, every flight ends, calls come `initialDelay` after their start, without stop starts for a key are `interval` apart, and with sufficient delays every write is served or still under way |
| Debouncer.AnswersInTimeIffSufficient | src/util/Debouncer.h:85-98 | without stop every write is followed, within requeue plus initial delay, by a call for its key, on all runs, if and only if `interval <= requeue + initial` |
| Debouncer.WriteLost | src/util/Debouncer.h:85-98 | for any other delays, a run that loses a write for good: no timer is left and the write is unanswered |
| Debouncer.UsualDelaysAnswer | src/util/Debouncer.h:32-40 | with the delays of the constructor every write is answered within `interval + 10 + initial`; the next four say what else they come to |
| Debouncer.UsualCallsSpaced | src/util/Debouncer.h:32-83 | a call comes exactly the given initial delay after its start, and two for one key are at least the given interval apart |
| Debouncer.UsualFlightLasts | src/util/Debouncer.h:67-83 | without stop a flight holds its key until the given interval has passed and no longer, and its call comes at the given initial delay |
| Debouncer.UsualWriteHeldBack | src/util/Debouncer.h:85-98 | a write that enters starts a flight at its own time, or is held back if its key is in flight |
| Debouncer.UsualRetryDue | src/util/Debouncer.h:90-96 | a write held back is tried again exactly the given interval and ten milliseconds after it was made |
| Debouncer.StoppedWritesOnlyFree | src/util/Debouncer.h:55-98 | once stopped a write starts nothing and is left to its retry, which only frees the key |
| Debouncer.CallsSpaced | src/util/Debouncer.h:67-79 | a call comes exactly `initialDelay` after its start, and two for one key are at least `interval` apart |
| Debouncer.JoinReturns | src/util/Debouncer.h:100-108 | the counter is the size of the set, and both are empty once `interval` has passed after stop, so `join` returns |
| Debouncer.JoinIsFinalIffNobodyEnters | src/util/Debouncer.h:55-66 | when `join` sees a zero counter after stop nothing is in flight; a flight can still begin if and only if some write has seen the stop flag clear and not yet entered |
| Debouncer.JoinCanReturnEarly | src/util/Debouncer.h:100-108 | for all delays and every key, a run in which `join` can return and a flight begins after it |
| Debouncer.NoCallsAfterStop | src/util/Debouncer.h:67-74 | on every run from a stopped state no value is passed on |
| Debouncer.UndisturbedWrite | src/util/Debouncer.h:85-98 | a write without another thread in between, look and entry together, is the whole operation of the class |
| Debouncer.UndisturbedRetry | src/util/Debouncer.h:90-96 | likewise for a retry with its two looks at the stop flag |
| Debouncer.Debouncer.TryWrite | src/util/Debouncer.h:55-83 | undisturbed, starts a flight exactly when not stopping and the key is not in flight |
| Debouncer.Debouncer.WriteKey | src/util/Debouncer.h:85-98 | undisturbed, the two steps of a write: a flight, or a retry later |
| Debouncer.Debouncer.OnRequeue | src/util/Debouncer.h:90-96 | undisturbed, the steps of a retry: frees the key after stop, otherwise tries once more |
| Debouncer.Debouncer.RemoveFromFlight | src/util/Debouncer.h:46-53 | takes a key out of flight and counts it down only if it was in |
| Freshness.Decide | src/persistence/CentroidMetadataDb.cpp:63-97 | does not exist only without stamps and centroid; up to date exactly when there is no change stamp, or a calculation stamp that is not before it |
| Freshness.VerdictSound | src/persistence/CentroidMetadataDb.cpp:63-97 | on a strict clock with stamps landing in order, runs that aim their removals well and every change stamped, a true verdict means that all reads of the run that made the stored centroid saw the present membership, even if the calculation stamp was read earlier than the change stamp |
| Freshness.StaleIsNoticed | src/persistence/CentroidMetadataDb.cpp:88-95 | under the same hypotheses, a centroid that missed a change gets the verdict false once the change is stamped |
| Freshness.RunRefreshes | src/centroid_update_worker/CentroidUpdater.cpp:59-137 | under the same hypotheses, from any settled state one run makes the centroid fresh and the verdict true |
| Freshness.VouchesIff | src/server/RelevanceServer.cpp:414-457 | in all reachable settled states a true verdict means a fresh centroid, if and only if no two clock readings agree, the stamps of change land in order and no run asks for the removal of a member |
| Freshness.OvertakenStamp | src/server/RelevanceServer.cpp:420-423 | on any clock, two unawaited change stamps that land in the wrong order leave a stale centroid with a true verdict |
| Freshness.UnstampedRemoval | src/centroid_update_worker/CentroidUpdater.cpp:107-113 | on any clock and in any order of stamps, a member that a run has removed leaves a stale centroid with a true verdict, and nothing is on its way |
| Freshness.MissedChange | src/util/util.cpp:38-42 | on a clock that counts seconds, a run and a change within one second leave a stale centroid with a true verdict |
| Freshness.CoarseVerdictSoundIffStampsDiffer | src/persistence/CentroidMetadataDb.cpp:88-95 | on such a clock, a pair of stamps with a true verdict vouches for freshness if and only if the two differ |
| Freshness.UnchangedIsFresh | src/persistence/CentroidMetadataDb.cpp:79-82 | before the first change the verdict is true and right, in every setting |
| Freshness.JoinAnswersWhenFresh | src/server/RelevanceServer.cpp:459-485 | under the hypotheses of `VerdictSound`, a join of an existing centroid that waits for no update finds it fresh |
| Freshness.JoinByStamps | src/server/RelevanceServer.cpp:459-485 | by the two stamps and the centroid's presence: when a join answers at once and with what, when it is an error, and when it waits for an update |
| Freshness.JoinOfMissing | src/server/RelevanceServer.cpp:463-470 | a missing centroid that nobody has stamped gets an error, or the answer false where missing ones are ignored |
| Freshness.CentroidMetadata.IsCentroidUpToDate | src/persistence/CentroidMetadataDb.cpp:63-97 | the decision on the two stored stamps is the one the theorems are about |
| CentroidUpdater.RunOccurrences | src/centroid_update_worker/CentroidUpdater.cpp:76-124 | how often each position of a centroid's list is loaded, in closed form: once, twice where two batches or two pages meet, more where both do, never on a last page that is not full |
| CentroidUpdater.LoadedHowOften | src/centroid_update_worker/CentroidUpdater.cpp:76-124 | that number, written out, as a sum for the page a position is in and the page before it, with which it may be shared |
| CentroidUpdater.SavedScores | src/centroid_update_worker/CentroidUpdater.cpp:82-129 | the saved score of a word is the sum over the listed documents that exist of their score times how often they are loaded, and the weight the sum of those numbers |
| CentroidUpdater.EachOnceIffSmall | src/centroid_update_worker/CentroidUpdater.cpp:82-124 | every document is loaded exactly once if and only if there are no more of them than a page and than a batch holds |
| CentroidUpdater.BlameIffOneBatch | src/centroid_update_worker/CentroidUpdater.cpp:104-116 | a missing document is the one asked to be removed, whichever are missing, if and only if one batch covers each page |
| CentroidUpdater.Updater.Run | src/centroid_update_worker/CentroidUpdater.cpp:52-137 | gone, and the store untouched, exactly if the centroid does not exist; otherwise the store is left with the blamed removals carried out, in order and while the run goes on, and with the centroid whose scores, squared magnitude and weight are those of the documents the loads find |
| CentroidUpdater.ListStays | src/centroid_update_worker/CentroidUpdater.cpp:78-113 | whichever of the removals asked for so far have been carried out, the rest of the list from the present page's last id on is the same |
| CentroidUpdater.AnswerStays | src/centroid_update_worker/CentroidUpdater.cpp:92-113 | and so is what each load finds |
| CentroidUpdater.Updater.Pages | src/centroid_update_worker/CentroidUpdater.cpp:76-125 | the loop over the pages ends, and adds and has removed exactly what the loads of the run come to |
| CentroidUpdater.Updater.Page | src/centroid_update_worker/CentroidUpdater.cpp:82-116 | the loop over the batches of one page, each of which reaches one index into the next |
| CentroidUpdater.SmallCentroidIsSum | src/centroid_update_worker/CentroidUpdater.cpp:76-129 | of a centroid that fits in a page and in a batch, the sum of its existing documents is saved, and exactly the missing ones are asked to be removed |
| CentroidUpdater.MisaimedRemoval | src/centroid_update_worker/CentroidUpdater.cpp:107-111 | if the first document past the first batch is missing, the removal of the centroid's first document is asked for |
| CentroidUpdater.RemovalsActIffMisaimed | src/centroid_update_worker/CentroidUpdater.cpp:107-113 | carrying out the removals changes the store if and only if one of them names a document that exists; where one batch covers each page they change nothing, so missing documents stay listed |
| CentroidUpdater.MisaimedRemovalEndsMembership | src/centroid_update_worker/CentroidUpdater.cpp:107-113 | otherwise an existing document can lose both its keys with the centroid while the missing one keeps its own |
| CentroidUpdater.RemovedEffect | src/persistence/SyncPersistence.cpp:520-545 | any list of removals takes out the two keys of each existing document named, and changes nothing else |
| CentroidUpdater.RunsAimedIff | src/centroid_update_worker/CentroidUpdater.cpp:62-113 | on all stores and centroids of up to a given size, the removals of a run change nothing, if and only if one batch covers a page or the centroid |
| CentroidUpdater.VouchesIffOneBatch | src/centroid_update_worker/CentroidUpdater.cpp:62-113 | with pages, batches and centroids of these sizes, a true verdict vouches for freshness if and only if the clock is strict, the stamps land in order and one batch covers a page or the centroid |
| Persistence.KeyTells | src/persistence/SyncPersistence.cpp:47-110 | a key whose id has no colon tells its family, its id and the rest: no two keys of different meaning meet |
| Persistence.KeyFormats | src/persistence/SyncPersistence.cpp:47-110 | what each key is, letter by letter |
| Persistence.EventLaw | src/persistence/SyncPersistence.cpp:170-545 | what is stored under each key after each operation: which of its arguments, nothing, or what was there before |
| Persistence.LastSaveStands | src/persistence/SyncPersistence.cpp:170-193 | after any run, a document's data and time of creation are those of its last accepted save, as long as it is not deleted |
| Persistence.ExistsBySave | src/persistence/SyncPersistence.cpp:170-224 | a document that exists after a run was saved in it, by an accepted save that nothing later undoes |
| Persistence.LastCentroidSaveStands | src/persistence/SyncPersistence.cpp:358-401 | a centroid's data are those of its last save or creation |
| Persistence.LastMetadataStands | src/persistence/SyncPersistence.cpp:706-713 | and a metadata value is the last one set |
| Persistence.MembershipsAnchored | src/persistence/SyncPersistence.cpp:170-545 | after every run, deletes included, a forward key means that the centroid exists and a reverse key that the document does |
| Persistence.MembershipsAgree | src/persistence/SyncPersistence.cpp:490-545 | after every run without deletes, or with careful ones only, forward and reverse keys agree |
| Persistence.AlwaysAgreeIffCareful | src/persistence/SyncPersistence.cpp:202-224 | forward and reverse keys agree throughout a run if and only if every document it deletes is in no centroid and every centroid it deletes is empty |
| Persistence.UnusedStaysRightIffAgree | src/persistence/SyncPersistence.cpp:227-251 | the unused documents are the existing ones with no forward key, now and after every continuation without deletes, if and only if forward and reverse keys agree |
| Persistence.UnusedAlwaysRightIffCareful | src/persistence/SyncPersistence.cpp:202-251 | that listing stays right from every point of a run on if and only if the run deletes carefully |
| Persistence.UnusedMeansInNoCentroid | src/persistence/SyncPersistence.cpp:227-251 | after every run without deletes, or with careful ones only, a document is unused exactly if it exists and is in no centroid |
| Persistence.DeletesBreakAgreement | src/persistence/SyncPersistence.cpp:371-393 | deleting a member document leaves its forward key, deleting its centroid the reverse key |
| Persistence.RecreatedDocumentCountsAsUnused | src/persistence/SyncPersistence.cpp:490-517 | a member deleted and saved again counts as unused although its forward key is there, and adding it is refused |
| Persistence.ListsUnused | src/persistence/SyncPersistence.cpp:227-251 | the scan collects the unused documents in ascending order, cut off at a positive limit |
| Persistence.UnusedMembers | src/persistence/SyncPersistence.cpp:227-251 | an unused document is a stored one with no reverse key |
| Persistence.LimitedIs | src/persistence/SyncPersistence.cpp:233-251 | a limit of 0 is none, and any other leaves as many as it says from the beginning |
| Persistence.ListingsAre | src/persistence/SyncPersistence.cpp:287-335 | a listing has exactly the ids stored under the prefix, each once and in order; from an id on, those not before it |
| Persistence.SyncPersistence.AddToCentroid | src/persistence/SyncPersistence.cpp:490-517 | result and store are those of the operation that the runs above are made of; refused exactly if the centroid or the document is missing or the forward key there, in this order |
| Persistence.SyncPersistence.RemoveFromCentroid | src/persistence/SyncPersistence.cpp:520-545 | likewise; the reverse key goes even when the forward key is missing and an error is returned |
| Persistence.SyncPersistence.Delete | src/persistence/SyncPersistence.cpp:202-224 | likewise; the scans take out exactly the document's own reverse keys and metadata |
| Persistence.SyncPersistence.RemoveCentroid | src/persistence/SyncPersistence.cpp:371-393 | likewise for a centroid's forward keys and metadata |
| Persistence.SyncPersistence.SaveNew | src/persistence/SyncPersistence.cpp:170-193 | refuses exactly an existing document; otherwise its data are stored under the document's key and its time of creation under that of its metadata (`EventLaw`) |
| Persistence.SyncPersistence.IsDocumentInAnyCentroid | src/persistence/SyncPersistence.cpp:135-145 | true exactly if some reverse key of the document is stored, though the scan stops at its first key |
| Persistence.SyncPersistence.ListUnusedDocuments | src/persistence/SyncPersistence.cpp:227-251 | returns the unused documents in ascending order, or the first `limit` of them |
| Persistence.SyncPersistence.ListAll | src/persistence/SyncPersistence.cpp:287-300 | returns the ids stored under a prefix, each once, in ascending order |
| Persistence.SyncPersistence.ListCentroidDocumentRangeFromOffset | src/persistence/SyncPersistence.cpp:602-631 | a page of the centroid's ids, or nothing if it is empty and the centroid does not exist |
| Persistence.SyncPersistence.ListCentroidDocumentRangeFromDocumentId | src/persistence/SyncPersistence.cpp:647-676 | a page of the ids from a given one on, that one included if it is a member |
| KeyValueStore.PrefixRange | src/persistence/RockHandle.cpp:145-152 | the strings from `prefix:` up to and without `prefix;` are exactly those that begin with `prefix:` |
| KeyValueStore.PrefixScan | src/persistence/RockHandle.cpp:145-152 | the scan of a prefix visits exactly the keys that begin with it, in ascending order |
| KeyValueStore.JoinedInjective | src/persistence/SyncPersistence.cpp:89-98 | a key gives back its colon-free prefix and what follows it |
| KeyValueStore.PagesRebuild | src/persistence/SyncPersistence.cpp:602-617 | pages of any positive size, taken one after the other, make up the list |
| KeyValueStore.PageHolds | src/persistence/RockHandle.cpp:154-182 | a page has the elements from the offset on, as many as the limit allows |
| KeyValueStore.FromElementOn | src/persistence/RockHandle.cpp:184-206 | a list taken from one of its members on begins with that member and goes on to the end |
| KeyValueStore.FromOffsetVisitsPage | src/persistence/RockHandle.cpp:154-182 | the counting callback passes on exactly the keys of the page, and reports any exactly if the scan goes beyond the offset |
| KeyValueStore.ListsIds | src/persistence/SyncPersistence.cpp:302-335 | cutting the keys of a prefix at their colon lists the ids in ascending order, and a page of keys a page of ids |
| KeyValueStore.RockHandle.IterRange | src/persistence/RockHandle.cpp:122-143 | visits the keys of the range in ascending order up to an escape, and says whether there was one |
| KeyValueStore.RockHandle.IterPrefixFromOffset | src/persistence/RockHandle.cpp:154-182 | runs the callback over the page of the prefix's keys at an offset |
| KeyValueStore.RockHandle.IterPrefixFromMember | src/persistence/RockHandle.cpp:184-206 | runs the callback over the first keys of the prefix from a member on |
| VersionedPointers.UsageIsProxies | src/util/MultiVersionPtr.h:53-63 | in every run the count of a live base is the number of proxies on it, at least one, and its value is there |
| VersionedPointers.FreedExactlyWhenUnused | src/util/MultiVersionPtr.h:53-104 | of every base ever made the value is deleted once when no proxy is on it any more, and not before |
| VersionedPointers.SnapshotStable | src/util/MultiVersionPtr.h:10-39 | a user's proxy denotes the same value through any later events that do not touch it |
| VersionedPointers.MapRefined | src/util/ConcurrentMap.h:111-137 | nodes, proxies and counts together behave as a plain map under every event |
| VersionedPointers.GetOptionDenotes | src/util/ConcurrentMap.h:128-137 | a look-up gives a new proxy that denotes the stored value, and none exactly for a missing key |
| VersionedPointers.SetBaseKeeps | src/util/MultiVersionPtr.h:86-104 | moving a proxy to another base keeps all counts right, and deletes at most the base it left, exactly if that is now unused |
| VersionedPointers.InsertKeeps | src/util/ConcurrentMap.h:111-121 | an insertion or update puts one node's proxy on a new base with the value and leaves all other proxies alone |
| VersionedPointers.EraseKeeps | src/util/ConcurrentMap.h:122-127 | an erasure takes out one node and its proxy and leaves all other proxies alone |
| VersionedPointers.Heap.Set | src/util/MultiVersionPtr.h:86-104 | the updates in place come to the step the theorems are about |
| VersionedPointers.Heap.InsertOrUpdateKey | src/util/ConcurrentMap.h:111-121 | likewise for the whole operation on the map, temporaries included; the invariant is kept |
| VersionedPointers.Heap.EraseKey | src/util/ConcurrentMap.h:122-127 | likewise; true exactly if the key was there |
| VersionedPointers.Heap.GetOptionOf | src/util/ConcurrentMap.h:128-137 | likewise |
| Scoring.CauchySchwarz | src/models/WordVector.cpp:27-38 | the square of the dot product is at most the product of the squares |
| Scoring.SimilarityInUnit | src/models/WordVector.cpp:27-38 | with non-negative scores and true magnitudes similarity is in [0, 1], is 0 exactly if no word is scored in both, and is 1 of equal vectors |
| Scoring.FullSimilarity | src/models/WordVector.cpp:37-37 | similarity is 1 exactly for proportional vectors |
| Scoring.ScoreIsNumberIff | src/models/WordVector.cpp:37-37 | with true magnitudes a score is a number exactly if both vectors score some word, and never infinite |
| Scoring.DivideLaw | src/models/WordVector.cpp:37-37 | the quotient times a divisor that is not zero is the dividend; by zero it is infinite, or no number of zero |
| Scoring.ScoreIsCosine | src/models/WordVector.cpp:27-38 | with true magnitudes a score times both is the dot product; it is in [-1, 1] and the same whichever vector is asked |
| Scoring.ScoreInUnit | src/models/WordVector.cpp:27-55 | with true magnitudes and non-negative scores it is in [0, 1], 0 exactly for unrelated vectors and 1 exactly for proportional ones |
| Scoring.DotAdds | src/models/WordVector.cpp:29-36 | the dot product word by word: one word's score adds its product with the other vector's score, nothing if that has none |
| Scoring.AccumulatesWordByWord | src/centroid_update_worker/DocumentAccumulator.cpp:14-25 | one more document adds each of its entries to the score of its word and to no other |
| Scoring.DotSymmetric | src/models/WordVector.cpp:40-42 | similarity of two vectors does not depend on which is asked |
| Scoring.WordVector.Score | src/models/WordVector.cpp:27-38 | the loop over one vector's scores, in any order, gives the dot product over all words divided by the magnitudes; what that number is say `ScoreIsCosine`, `ScoreInUnit` and `DivideLaw` |
| Scoring.WordVector.ScoreDocument | src/models/WordVector.cpp:44-55 | the loop over a document's list gives the same score as the vector of its words' totals |
| Scoring.OrderIndependent | src/centroid_update_worker/DocumentAccumulator.cpp:14-25 | the accumulated scores are the same for every order of the documents |
| Scoring.DocumentAccumulator.AddDocument | src/centroid_update_worker/DocumentAccumulator.cpp:14-25 | scores, count and the staleness of the cache stay those of the documents added so far |
| Scoring.DocumentAccumulator.GetMagnitudeSquared | src/centroid_update_worker/DocumentAccumulator.cpp:31-42 | cached or computed, the squared magnitude is the sum of squares of the scores |
| Scoring.TallyGivesShares | src/text_util/WordAccumulator.cpp:33-42 | dividing the counts by their total lists every word once with its share, and the shares add up to 1 |
| Scoring.WordAccumulator.Add | src/text_util/WordAccumulator.cpp:20-31 | the list counts the words: each once, at the place the index gives, with the number of times it came |
| Scoring.WordAccumulator.Build | src/text_util/WordAccumulator.cpp:33-42 | leaves the shares and the sum of their squares |
| Tokenizer.LongRunsAreMaximal | src/tokenizer/DestructiveTokenIterator.cpp:27-43 | a run is reported if and only if it is a maximal run of three letters or more |
| Tokenizer.LongRunsInOrder | src/tokenizer/DestructiveTokenIterator.cpp:27-43 | the runs come in order, without overlap, inside the text |
| Tokenizer.EndExactIff | src/tokenizer/DestructiveTokenIterator.cpp:55-60 | the reported end is the run's exactly if the run ends the text or a one-byte separator that is not last follows; it is never before the run's end nor behind the separator |
| Tokenizer.EndOf | src/tokenizer/DestructiveTokenIterator.cpp:55-60 | where the reported end is, for each of the ways a run can end |
| Tokenizer.SpansDisjoint | src/tokenizer/DestructiveTokenIterator.cpp:55-66 | spans begin where their run does, are at least three bytes long, stay in the text and do not overlap |
| Tokenizer.DestructiveTokenIterator.Next | src/tokenizer/DestructiveTokenIterator.cpp:23-73 | reports the next long run, or none and the text is read to its end, with the part read normalised in place, capitals to small letters included, and the cursors together |
| Tokenizer.Tokens | src/document_processing_worker/DocumentProcessor.cpp:45-56 | asking until there is none reports every long run once, in order, and leaves the text normalised up to its first malformed byte |
| Tokenizer.CaseDoesNotMatter | src/tokenizer/DestructiveTokenIterator.cpp:23-73 | texts that differ only in the case of letters are left the same and have the same spans |
| Tokenizer.SecondPass | src/tokenizer/DestructiveTokenIterator.cpp:23-73 | a second pass over the rewritten text changes nothing and reports the same spans |
| Unicode.DecodeEncode | src/tokenizer/DestructiveTokenIterator.cpp:28-31 | decoding an encoded code point, with anything behind it, gives it back with its width |
| Unicode.DecodeSound | src/tokenizer/DestructiveTokenIterator.cpp:28-31 | only the shortest encoding of a scalar value decodes |
| Unicode.NormalizeKeeps | src/libunicode/code_point_support.cpp:11-53 | normalising keeps a code point's block, encoded length and being a letter, and twice is once; what it does to letters say the next three |
| Unicode.CapitalsGoSmall | src/libunicode/code_point_support.cpp:11-44 | a capital of the three blocks becomes its small letter, 32 or 1 further on, and every other code point stays |
| Unicode.NoCapitalLeft | src/libunicode/code_point_support.cpp:11-53 | no capital is left in a normalised text |
| Unicode.NormalizedAlikeIff | src/libunicode/code_point_support.cpp:11-53 | two texts are normalised to the same exactly if they differ at most in the case of letters |
| Unicode.LatinLetters | src/libunicode/code_point_support.cpp:60-148 | which code points of the Latin blocks are letters |
| Unicode.EncodesAsInRfc3629 | src/tokenizer/DestructiveTokenIterator.cpp:28-31 | the bytes of an encoded code point, after section 3 of RFC 3629 |
| Unicode.EncodedLengthKept | src/tokenizer/DestructiveTokenIterator.cpp:28-31 | normalising a text keeps its length in bytes, so that the output cursor never overtakes the input cursor |
| SnowballRuntime.SnEnv.FindAmong | external/libstemmer/runtime/utilities.c:212-325 | forward or backward, finds the longest entry at the cursor, moves past it and returns its result; with no match returns 0 and moves nothing |
| SnowballRuntime.Search | external/libstemmer/runtime/utilities.c:212-270 | the binary search that reuses common lengths, then the links, come to the longest entry that matches, or to none |
| PrefixTables.FollowLinks | external/libstemmer/runtime/utilities.c:257-269 | following the links from where the search stopped comes to the longest key that is a prefix of the text, or shows that there is none |
| PrefixTables.LocallyBuiltIsWellFormed | external/libstemmer/runtime/utilities.c:212-270 | a table whose neighbours and links pass a local check is sorted and links every key to its longest proper prefix |
| SnowballRuntime.SnEnv.Group | external/libstemmer/runtime/utilities.c:146-180 | consumes one symbol, or the longest span, inside or outside a grouping; 0, 1 or -1 says how it ended |
| SnowballRuntime.SnEnv.GroupB | external/libstemmer/runtime/utilities.c:158-192 | the same backwards |
| SnowballRuntime.SnEnv.EqS | external/libstemmer/runtime/utilities.c:194-197 | moves past the string exactly if it is ahead |
| SnowballRuntime.SnEnv.EqSB | external/libstemmer/runtime/utilities.c:199-202 | moves before the string exactly if it is behind |
| SnowballRuntime.SnEnv.ReplaceS | external/libstemmer/runtime/utilities.c:348-378 | the text is spliced, the cursor moves along with what it stood on, and the buffer grows where it must |
| SnowballRuntime.SnEnv.SliceFromS | external/libstemmer/runtime/utilities.c:380-399 | fails with -1 and changes nothing exactly if the slice is not in the text; otherwise replaces it |
| SnowballRuntime.SnEnv.InsertS | external/libstemmer/runtime/utilities.c:410-417 | as a replacement, with the slice marks behind the place shifted as well |
| SnowballRuntime.SnEnv.SetCurrent | external/libstemmer/runtime/api.c:60-65 | the text is the word and the cursor is at its beginning |
| EnglishTables.A5WellFormed | external/libstemmer/src_c/stem_ISO_8859_1_english.c:151-177 | the table of step 2 is sorted from the end and every link names the longest other suffix |
| EnglishTables.A10WellFormed | external/libstemmer/src_c/stem_ISO_8859_1_english.c:292-312 | the table of exceptional words is sorted and every link names the longest other prefix |
| EnglishRules.StemNeverLonger | src/document_processing_worker/DocumentProcessor.cpp:55-61 | no rule, and no sequence of them, makes a word longer |
| EnglishRules.StemLeavesNoMark | external/libstemmer/src_c/stem_ISO_8859_1_english.c:968-993 | a word without a capital Y has a stem without one, though the steps in between mark consonants with it |
| EnglishRules.MarkedUnique | external/libstemmer/src_c/stem_ISO_8859_1_english.c:386-416 | there is one way to mark a word, given what each mark says of its neighbour |
| EnglishStemmer.EnglishStem | external/libstemmer/src_c/stem_ISO_8859_1_english.c:995-1112 | for every word: returns 1, never fails a slice check, leaves the stem the rules give, no longer than the word and free of marks; which letters that is say the laws below |
| EnglishStemmer.StemNext | external/libstemmer/src_c/stem_ISO_8859_1_english.c:995-1112 | an environment used before stems the next word just as well |
| EnglishStemmer.StepOutcome | external/libstemmer/src_c/stem_ISO_8859_1_english.c:654-674 | a look-up behind its guard, then the switch, does what the longest matching rule says, in its region or not at all |
| EnglishStemmer.RMarkRegions | external/libstemmer/src_c/stem_ISO_8859_1_english.c:424-462 | the two marks are the beginnings of the regions R1 and R2 |
| EnglishStemmer.RShortV | external/libstemmer/src_c/stem_ISO_8859_1_english.c:464-478 | true exactly if the word up to the cursor ends in a short syllable |
| EnglishStemmer.RPrelude | external/libstemmer/src_c/stem_ISO_8859_1_english.c:371-422 | takes off a leading apostrophe, marks every consonant y, and records whether it marked one |
| EnglishStemmer.RStep1a | external/libstemmer/src_c/stem_ISO_8859_1_english.c:490-553 | turns the text into what rule 1a says |
| EnglishStemmer.RStep1b | external/libstemmer/src_c/stem_ISO_8859_1_english.c:555-628 | what rule 1b says, with the repair of the stem |
| EnglishStemmer.RStep1c | external/libstemmer/src_c/stem_ISO_8859_1_english.c:630-652 | what rule 1c says |
| EnglishStemmer.RStep2 | external/libstemmer/src_c/stem_ISO_8859_1_english.c:654-751 | what rule 2 says |
| EnglishStemmer.RStep3 | external/libstemmer/src_c/stem_ISO_8859_1_english.c:753-802 | what rule 3 says |
| EnglishStemmer.RStep4 | external/libstemmer/src_c/stem_ISO_8859_1_english.c:804-837 | what rule 4 says |
| EnglishStemmer.RStep5 | external/libstemmer/src_c/stem_ISO_8859_1_english.c:839-888 | what rule 5 says |
| EnglishStemmer.RException1 | external/libstemmer/src_c/stem_ISO_8859_1_english.c:899-966 | replaces the exceptional words and no others |
| EnglishStemmer.RException2 | external/libstemmer/src_c/stem_ISO_8859_1_english.c:890-897 | true exactly for the words that step 1a leaves for good |
| EnglishStemmer.RPostlude | external/libstemmer/src_c/stem_ISO_8859_1_english.c:968-993 | turns every mark back into y if one was made |
| EnglishRuleLaws.Step1aPossessives | external/libstemmer/src_c/stem_ISO_8859_1_english.c:490-508 | an apostrophe, with or without an s, goes from the end of any stem |
| EnglishRuleLaws.Step1aRules | external/libstemmer/src_c/stem_ISO_8859_1_english.c:509-553 | what step 1a leaves of any stem before `sses`, `ss`, `us`, `ied` and `ies` |
| EnglishRuleLaws.Step1aPlainS | external/libstemmer/src_c/stem_ISO_8859_1_english.c:537-550 | a plain s goes exactly if there is a vowel before the letter in front of it |
| EnglishRuleLaws.Step1bDoubleE | external/libstemmer/src_c/stem_ISO_8859_1_english.c:564-572 | `eed` and `eedly` become `ee` exactly in R1 |
| EnglishRuleLaws.Step1bRules | external/libstemmer/src_c/stem_ISO_8859_1_english.c:573-584 | the other endings of the past and the progressive go exactly after a vowel |
| EnglishRuleLaws.RepairIs | external/libstemmer/src_c/stem_ISO_8859_1_english.c:585-624 | when the stem left gets an e, loses a doubled letter, or stays |
| EnglishRuleLaws.Step1cRules | external/libstemmer/src_c/stem_ISO_8859_1_english.c:630-652 | a final y becomes an i exactly after a non-vowel that is not the first letter |
| EnglishRuleLaws.Step2RulesFirst | external/libstemmer/src_c/stem_ISO_8859_1_english.c:654-751 | what step 2 leaves of any stem before `anci`, `enci`, `ogi` and `li`, in R1 and outside, if no longer suffix matches |
| EnglishRuleLaws.Step2RulesSecond | external/libstemmer/src_c/stem_ISO_8859_1_english.c:654-751 | likewise for `bli`, `abli`, `alli` and `fulli` |
| EnglishRuleLaws.Step2RulesThird | external/libstemmer/src_c/stem_ISO_8859_1_english.c:654-751 | likewise for `lessli`, `ousli`, `entli`, `aliti` and `biliti` |
| EnglishRuleLaws.Step2RulesFourth | external/libstemmer/src_c/stem_ISO_8859_1_english.c:654-751 | likewise for `iviti`, `tional`, `ational`, `alism` and `ation` |
| EnglishRuleLaws.Step2RulesFifth | external/libstemmer/src_c/stem_ISO_8859_1_english.c:654-751 | likewise for `ization`, `izer`, `ator`, `iveness`, `fulness` and `ousness` |
| EnglishRuleLaws.Step2LeavesAlone | external/libstemmer/src_c/stem_ISO_8859_1_english.c:654-661 | and a word with none of the suffixes is left alone |
| EnglishRuleLaws.Step3RulesFirst | external/libstemmer/src_c/stem_ISO_8859_1_english.c:753-802 | what step 3 leaves of any stem before its first five suffixes, in R1 and outside; `ative` goes only in R2 |
| EnglishRuleLaws.Step3RulesSecond | external/libstemmer/src_c/stem_ISO_8859_1_english.c:753-802 | likewise for the other four |
| EnglishRuleLaws.Step3LeavesAlone | external/libstemmer/src_c/stem_ISO_8859_1_english.c:753-760 | and a word with none of them is left alone |
| EnglishRuleLaws.Step4RulesFirst | external/libstemmer/src_c/stem_ISO_8859_1_english.c:804-837 | what step 4 leaves of any stem before its first six suffixes, in R2 and outside |
| EnglishRuleLaws.Step4RulesSecond | external/libstemmer/src_c/stem_ISO_8859_1_english.c:804-837 | likewise for the next six; `ion` goes only after s or t |
| EnglishRuleLaws.Step4RulesThird | external/libstemmer/src_c/stem_ISO_8859_1_english.c:804-837 | likewise for the last six |
| EnglishRuleLaws.Step4LeavesAlone | external/libstemmer/src_c/stem_ISO_8859_1_english.c:804-811 | and a word with none of them is left alone |
| EnglishRuleLaws.Step5Rules | external/libstemmer/src_c/stem_ISO_8859_1_english.c:839-888 | when a final e goes, and when one of a double l |
| EnglishRuleLaws.RegionIs | external/libstemmer/src_c/stem_ISO_8859_1_english.c:438-460 | a region begins behind the first vowel and non-vowel in a row, or at the end if there are none |
| EnglishRuleLaws.RegionsAre | external/libstemmer/src_c/stem_ISO_8859_1_english.c:424-462 | R1 begins behind three beginnings of words or as a region does, and R2 as a region in R1 |
| EnglishRuleLaws.ShortSyllables | external/libstemmer/src_c/stem_ISO_8859_1_english.c:464-478 | which letters make a short syllable |
| EnglishRuleLaws.MarksAre | external/libstemmer/src_c/stem_ISO_8859_1_english.c:386-416 | exactly a y at the beginning of a word or after an unmarked vowel is marked |
| EnglishRuleLaws.ExceptionsGive | external/libstemmer/src_c/stem_ISO_8859_1_english.c:899-966 | the stems of the eighteen exceptional words |
| EnglishRuleLaws.ExceptionsAre | external/libstemmer/src_c/stem_ISO_8859_1_english.c:292-312 | and there are no others |
| EnglishLaws.InvariantsStay | external/libstemmer/src_c/stem_ISO_8859_1_english.c:890-897 | the eight words that stay, and their plurals |
| EnglishLaws.ShortWordsStay | external/libstemmer/src_c/stem_ISO_8859_1_english.c:1003-1010 | words of fewer than three letters stay |
| EnglishLaws.LeadingApostrophe | external/libstemmer/src_c/stem_ISO_8859_1_english.c:374-382 | an apostrophe in front of a word makes no difference |
| EnglishLaws.PlainForms | external/libstemmer/src_c/stem_ISO_8859_1_english.c:490-553 | the plural and the genitives of a word in p with a vowel before have its stem, the word itself |
| EnglishLaws.PastForms | external/libstemmer/src_c/stem_ISO_8859_1_english.c:1035-1059 | and so have its past, its progressive, that one's plural, and their adverbs, with the doubled letter undone |
| EnglishLaws.VoicelessForms | external/libstemmer/src_c/stem_ISO_8859_1_english.c:573-584 | without a vowel they stay as they are |
| EnglishLaws.Genitives | external/libstemmer/src_c/stem_ISO_8859_1_english.c:490-508 | the genitives of any word have its stem |
| EnglishLaws.AyStays | external/libstemmer/src_c/stem_ISO_8859_1_english.c:386-416 | a y after a vowel stays through all steps and is a y in the end |
| EnglishLaws.ByBecomesI | external/libstemmer/src_c/stem_ISO_8859_1_english.c:630-652 | a y after a b becomes an i |
| EnglishLaws.AncyGoes | external/libstemmer/src_c/stem_ISO_8859_1_english.c:1059-1083 | in R2 `ancy` and `ance` have one stem, which is what comes before unless that ends in e or l: step 1c, then 2, then 4 |
| EnglishLaws.IzeForms | external/libstemmer/src_c/stem_ISO_8859_1_english.c:1067-1091 | in R1 `izer`, `ization` and `ize` have one stem |
| EnglishLaws.AteForms | external/libstemmer/src_c/stem_ISO_8859_1_english.c:1067-1091 | in R1 `ational`, `ator`, `ate` and, but for `ization`, `ation` have one stem |
| EnglishLaws.AtePastForms | external/libstemmer/src_c/stem_ISO_8859_1_english.c:1051-1067 | and so have `ated`, `ating` and `ationed`: step 1b, then 2 |
| EnglishLaws.FulForms | external/libstemmer/src_c/stem_ISO_8859_1_english.c:1067-1075 | in R1 `fulness` and `ful` have one stem, which is what comes before where steps 4 and 5 find nothing in it: step 2, then 3 |
| EnglishLaws.IcForms | external/libstemmer/src_c/stem_ISO_8859_1_english.c:1075-1083 | in R1 `icate`, `ical` and `ic` have one stem: step 3, then 4 |
| EnglishLaws.ReForms | external/libstemmer/src_c/stem_ISO_8859_1_english.c:1083-1091 | in R2 `reance` and `re` have one stem, which ends in the r: step 4, then 5 |
| EnglishLaws.CyForms | external/libstemmer/src_c/stem_ISO_8859_1_english.c:1051-1059 | in R2 `cying` and `cy` have one stem, which after any letter but n ends in `ci`: step 1b, then 1c |
| EnglishLaws.EedInside | external/libstemmer/src_c/stem_ISO_8859_1_english.c:564-572 | in R1 `eed` and `ee` become an e, but for three of the words that stay |
| EnglishLaws.EedOutside | external/libstemmer/src_c/stem_ISO_8859_1_english.c:564-572 | with no region in the stem `eed` stays |
| EnglishLaws.FinalEOutside | external/libstemmer/src_c/stem_ISO_8859_1_english.c:839-868 | with no region in the stem a final e stays |
| EnglishLaws.FinalEInR1 | external/libstemmer/src_c/stem_ISO_8859_1_english.c:839-868 | in R1 alone it goes exactly if no short syllable is before it, where step 3 has no suffix that ends in it |
| EnglishLaws.FinalEInR2 | external/libstemmer/src_c/stem_ISO_8859_1_english.c:839-868 | in R2 it goes, where steps 3 and 4 have no suffix that ends in it |
| EnglishLaws.ShortWordForms | external/libstemmer/src_c/stem_ISO_8859_1_english.c:608-622 | if R1 begins at the end of a short syllable, `ing`, `ed` and `e` behind it all come to the e |
| EnglishLaws.OtherPastForms | external/libstemmer/src_c/stem_ISO_8859_1_english.c:585-624 | and otherwise, where nothing else is to repair, `ing` and `ed` go for good |
| EnglishLaws.AtInR1 | external/libstemmer/src_c/stem_ISO_8859_1_english.c:1067-1091 | in R1 alone `ative` leaves `at`, and so do `ator` and `ate` after any letter but c, by steps 2, 4 and 5 |
| EnglishLaws.NessGoes | external/libstemmer/src_c/stem_ISO_8859_1_english.c:753-802 | in R1 `ness` goes after a b, whether in R2 or not |
| EnglishLaws.MentOutside | external/libstemmer/src_c/stem_ISO_8859_1_english.c:804-837 | in R1 alone `ment` stays |
| EnglishLaws.EndingsInR2 | external/libstemmer/src_c/stem_ISO_8859_1_english.c:753-837 | in R2 `ative` and `ment` go, and nothing more where steps 4 and 5 find nothing in what is left |
| EnglishLaws.EndingsOutside | external/libstemmer/src_c/stem_ISO_8859_1_english.c:661-661 | with no region in the stem `izer` and a double l stay |
| EnglishLaws.DoubleLInside | external/libstemmer/src_c/stem_ISO_8859_1_english.c:869-884 | in R2 a double l loses one |
| BipartiteMatching.FindPairing | external/gmock-1.7.0/src/gmock-matchers.cc:328-341 | true exactly if every matcher can be given an element of its own that it accepts |
| BipartiteMatching.FindMaxBipartiteMatching | external/gmock-1.7.0/src/gmock-matchers.cc:307-310 | the edges form a matching of the graph, and none is larger |
| BipartiteMatching.MaxBipartiteMatchState.Compute | external/gmock-1.7.0/src/gmock-matchers.cc:207-235 | the same, with the edges in order of their left node, the two arrays referring to each other, and the check on unused nodes never failing |
| BipartiteMatching.MaxBipartiteMatchState.TryAugment | external/gmock-1.7.0/src/gmock-matchers.cc:257-285 | ends; on success one more left node is linked and all others keep a partner; on failure nothing has changed and everything that can be reached is seen |
| BipartiteMatching.DeadBoundsMatchings | external/gmock-1.7.0/src/gmock-matchers.cc:207-235 | a closed set of right nodes that leads nowhere bounds every matching by the present one |
| BipartiteMatching.LinkFree | external/gmock-1.7.0/src/gmock-matchers.cc:277-281 | linking a left node to a free right node is an augmentation |
| BipartiteMatching.LinkThrough | external/gmock-1.7.0/src/gmock-matchers.cc:277-281 | linking it to a right node whose partner has found another is one as well |
| BlockTree.GenerateGetBlock | scripts/extract_unicode_blocks.py:92-140 | the lines it emits are those of the specification, for blocks in any order; it fails where an assertion or an index does |
| BlockTree.GeneratesIffSix | scripts/extract_unicode_blocks.py:92-140 | it succeeds exactly on six blocks or more |
| BlockTree.SortSorts | scripts/extract_unicode_blocks.py:125-125 | blocks that do not overlap come out in order, the same ones |
| BlockTree.InsideIsFound | scripts/extract_unicode_blocks.py:92-140 | the emitted function returns, for a code point inside a block, that block, in whatever order the blocks were given |
| BlockTree.GapGetsNeighbour | scripts/extract_unicode_blocks.py:92-140 | for every code point in no block it returns one with no other between the two, and never gets to its last line |
| SimpleRegex.MatchRegexAnywhere | external/gtest-1.7.0-min/src/gtest-port.cc:383-396 | for every valid pattern and every string: true exactly if some substring, at the ends the anchors ask for, is in the pattern's language |
| SimpleRegex.MatchRegexAtHead | external/gtest-1.7.0-min/src/gtest-port.cc:347-373 | ends, stays inside both strings, and is true exactly if a beginning of the string is in the language |
| SimpleRegex.MatchRepetitionAndRegexAtHead | external/gtest-1.7.0-min/src/gtest-port.cc:320-342 | true exactly if some number of repetitions that the mark allows leaves a match of the rest |
| SimpleRegex.ValidateRegex | external/gtest-1.7.0-min/src/gtest-port.cc:257-311 | accepts exactly the strings that some pattern renders |
| SimpleRegex.ParseIsInverse | external/gtest-1.7.0-min/src/gtest-port.cc:257-311 | a string has at most one pattern, and parsing finds it |
| SimpleRegex.AtomsStandFor | external/gtest-1.7.0-min/src/gtest-port.cc:206-247 | which characters a dot, a literal and each of the classes accept; a capital class accepts what its small one does not |
| SimpleRegex.AtomsAre | external/gtest-1.7.0-min/src/gtest-port.cc:223-228 | which characters may stand alone and which behind a backslash |
| SimpleRegex.ItemsStandFor | external/gtest-1.7.0-min/src/gtest-port.cc:320-342 | an item's words: one character it accepts, and as many as its mark allows |
| SimpleRegex.ItemsFollow | external/gtest-1.7.0-min/src/gtest-port.cc:347-373 | the words of two sequences of items, one after the other, are those of the first before those of the second |
| SimpleRegex.AnchorsStandFor | external/gtest-1.7.0-min/src/gtest-port.cc:383-396 | what the anchors ask of the place of a match |

## Left out

What the theorems take for granted:

* Each step of `UpdateWorker`, `Debouncer`, `Freshness` and `VersionedPointers` is atomic: a synchronised block, one read or write
  of an atomic, one callback, one operation on the store.  `VersionedPointers` takes a whole operation on a proxy as
  one step, so its compare-and-swap succeeds the first time; interleavings inside one are not modelled.
* The machines of `UpdateWorker` and `Freshness` are values, for every interleaving is a sequence of them; there is no
  object that runs them.
* Timers of `Debouncer` are ideal: they fire when due, in any order at one moment, and before time goes on; no time goes
  by while a write is between its look at the stop flag and its entry.
* `Freshness` follows the membership of one centroid that is never deleted, not the text of its documents: saving or
  deleting a document (src/server/RelevanceServer.cpp:215-224) stamps nothing.  Where a theorem needs a strict clock,
  stamps that land in order or runs that aim well, its statement says so.  `VerdictSound` covers the order in which the
  calculation stamp is read first.
* Ids hold no colon wherever a theorem names keys by their ids.
* Each operation of `Persistence` is one step; during a run of `CentroidUpdater` nobody else changes the store.
* The calculations that may fail in `UpdateWorker` are those that end in an exception: in `CentroidUpdater.Updater.Run`,
  those of centroids that do not exist.
* Scores are real numbers, and a magnitude is described by its square.

What is not modelled:

- CentroidUpdater.Updater.Run: each removal is carried out when it is sent; `ListStays` and `AnswerStays` say that one carried out later makes no difference to the run.  `decode` and `encode` stand for the stored forms, and failures of a load other than a missing document are left out.
- Scoring.WordVector.Score: a zero is positive, and rounding and overflow are left out.
- UpdateWorker.FiresAtMostOnce: the general callbacks of `onUpdate` are left out, as they are never taken away.
- Debouncer.AnswersInTimeIffSufficient: delays are fixed for a run; the setters for tests change them on the way.
- Tokenizer.DestructiveTokenIterator.Next: letters beyond the four Latin blocks are a parameter, and decoding follows section 3 of RFC 3629 in place of the code of utf8-cpp, which is not part of this model.
- SimpleRegex.MatchRepetitionAndRegexAtHead: strings are shorter than the largest `size_t`; `RE::FullMatch` is left out.
- SnowballRuntime.SnEnv.ReplaceS: allocation succeeds, and the two callers' null checks have no counterpart.
- SnowballRuntime.SnEnv.FindAmong: entries with a callback are left out, as no table of the stemmer has one.
- BlockTree.GenerateGetBlock: lines are structured values without indentation, and the sort is a function in place of the library's; the enumeration and the names are left out.
- Persistence.SyncPersistence.ListUnusedDocuments: `deleteOldUnusedDocuments`, which deletes by age, is left out.
- VersionedPointers.Heap.EraseKey: the skip list frees an erased node at once.
- The UTF-8 variants of the stemmer, the Danish and Dutch stemmers, the stopwords and the cut at 23 bytes.
- Thrift, RocksDB, folly, thread pools, serialisation, hashing and the in-memory store, whose `put` does not overwrite.
- The explanations that matchers print, and the rest of the two test libraries.
