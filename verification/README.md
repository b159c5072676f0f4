# Verified model of the feature-flag client

This project models the stateful core of the feature-flag client in Dafny and proves what it is for:
that a flag cache in front of a store may evict, expire and sweep as it likes without a caller being
able to tell.

The code appears in two layers that are tied together by proof.

* **Values.** `LruSpec`, `StoreSpec`, `Flags`, `Backend`, `Defaults` and `ClientSpec` describe an LRU/TTL
  cache, a store table, a cached store and a client as values with functions on them. `SplitGet`,
  `ConcurrentStore` and `CloseProtocol` are step systems: any number of threads, one step per locked
  region, a program counter per thread, a clock that may tick between any two steps. The properties over
  whole runs (`Freshness`, `Recency`, `Inclusion`, `History`, `Overlap`, ...) are proved about these.
  `Sequential` and `Uninterrupted` prove that an operation of a step system that nobody interrupts is the
  sequential one.
* **Objects.** `RecencyList`, `FlagCache`, `MemoryStore`, `CachedStore`, `Client` and `Metrics` are the
  mutable objects: a sentinel ring of list nodes like Go's `container/list`, a map of items that hold
  handles into the ring, flags behind pointers, metadata maps that are shared by reference, slices over
  arrays. Every method is proved to do what its value-level function says. `Scheduler` runs the step
  system on the real cache objects, with item pointers that threads carry from Get's read lock to its
  write lock, and proves that every schedule ends in the state that `SplitGet` computes. `Isolation` and
  `Sharing` are about what callers can do through the pointers they hold.

| file | models |
|---|---|
| `Prelude.dfy` | options, results, duplicate-free sequences |
| `Flags.dfy`, `StoreSpec.dfy`, `MemoryStore.dfy`, `Isolation.dfy` | flags, validation, the in-memory store |
| `LruSpec.dfy`, `RecencyList.dfy`, `FlagCache.dfy` | the cache |
| `SplitGet.dfy`, `Freshness.dfy`, `Recency.dfy`, `Inclusion.dfy`, `Sequential.dfy`, `Scheduler.dfy` | the cache under concurrency and over runs |
| `Backend.dfy`, `CachedStore.dfy`, `Timestamps.dfy`, `Sharing.dfy` | the cached store |
| `ConcurrentStore.dfy`, `Provenance.dfy`, `SerialisedStore.dfy`, `Overlap.dfy`, `Counting.dfy`, `Uninterrupted.dfy`, `LateCalls.dfy` | the cached store under concurrency |
| `Defaults.dfy`, `ClientSpec.dfy`, `History.dfy`, `Client.dfy`, `RecordedAnswers.dfy`, `CloseProtocol.dfy` | the client |
| `Metrics.dfy` | counters and sliding windows of durations |

Clock readings are parameters: every place where the code reads the clock has one of its own, so two
readings in one operation may differ. Map iteration orders are arbitrary. Time zero is Go's zero time,
which the clock never reads.

## Where the code does less than it seems to

Each of these has a witness and the exact condition under which the code does meet the expectation.

* **Timestamps.** A flag read through the cache has other timestamps than the stored one: `CachedStore.Set`
  caches the caller's copy, while the store restores the old creation time and stamps again
  (`CachedCreationTimeWitness`). `TimestampsExactIff`: a cached flag equals the stored one exactly if the
  request that last cached it was a Get that missed, a GetAll, or a Set of a flag that brought the store's
  timestamps along.
* **Averages.** The average duration is accumulated in an int64, and two durations can have a negative
  average (`OverflowWitness`). `AverageExactIffTotalFits`: it is the truncated mean exactly if the total fits.
* **Overlapping operations.** Operations of the cached store are not atomic. A slow Get can put an old flag
  back into the cache after a Set (`SlowGetWitness`); a Set that overlaps with a Delete can leave a deleted
  flag in the cache (`SlowAndFast`). `ClashIsExact`: two operations can leave cache and store in disagreement
  exactly if one writes a valid key that the other uses, and they are not two Deletes or two Sets of the
  same content; and then also so that a later Get is answered wrongly. `SerialisedCoherence` is what holds for any number of threads without such an overlap;
  `NoInventedValues` and `HitIsRecent` are what always holds.
* **Late calls.** A call that has passed its closed check may still reach the store after Close has closed
  it (`LateCallWitness`). `AskedLateIff`: exactly the calls that were past their check and without a reply
  when the client was closed may still ask; none if no call was in flight (`QuietCloseIsFinal`). A late Get
  returns only what the cache kept or a call in flight had (`LateGetReturnsKept`, `LateGetHits`), and the
  closed store gets a key back exactly if a Set of it was on its way (`LateSetStaysIff`). Invalid
  input is reported as such by a closed client, not as a closed client.
* **Sharing.** The store isolates its flags from callers; the cache hands out the pointers that it holds
  (`WriteThroughHit`, and `WriteOwnMap` for the caller's own metadata map). `WriteFlag` and `WriteMap`: a
  caller's write changes the answer for a key exactly if a Get of the key would hit a flag that was written
  to (or that has the map) and something different was written.

## Model

| member | source | states |
|---|---|---|
| RecencyList.List.PushFront | featureflag/cache/cache.go:133 | after container/list's PushFront the ring is sound in both directions and the new node is in front |
| RecencyList.List.Remove | featureflag/cache/cache.go:183-184 | unlinks exactly the node of the handle, wherever it is, and keeps the order of the others |
| RecencyList.List.MoveToFront | featureflag/cache/cache.go:103-105 | moves exactly the node of the handle to the front and keeps the order of the others |
| FlagCache.Cache.Set | featureflag/cache/cache.go:112-144 | updates and touches a resident key, or inserts a new one and evicts from the back; map and ring stay in step; the callback runs once per entry lost |
| FlagCache.Cache.EvictIfNeeded | featureflag/cache/cache.go:193-204 | the loop terminates, because the back key is always in the map, and keeps exactly the maxSize most recent keys |
| FlagCache.Cache.RemoveItem | featureflag/cache/cache.go:181-189 | one key leaves map and ring together, and the callback runs exactly once |
| FlagCache.Cache.Delete | featureflag/cache/cache.go:147-154 | removes the key if it is there, and nothing else |
| FlagCache.Cache.Clear | featureflag/cache/cache.go:157-163 | empties map and ring, and the callback does not run; items issued before stay known as stale handles |
| FlagCache.Cache.Size | featureflag/cache/cache.go:166-170 | the number of resident keys, which is the length of the recency list |
| FlagCache.Cache.ProbeLocked | featureflag/cache/cache.go:74-97 | under the read lock: absent, expired, or found with the item that is in the map now |
| FlagCache.Cache.ExpireLocked | featureflag/cache/cache.go:85-92 | under the write lock: removes the key only if it is still there and still expired |
| FlagCache.Cache.TouchLocked | featureflag/cache/cache.go:99-106 | for any item the cache ever issued, even from before a Clear: moves the key to the front exactly if that very item is resident, else changes nothing |
| FlagCache.Cache.Get | featureflag/cache/cache.go:72-109 | the two halves without interference: the value of an unexpired entry, which is touched and not extended |
| FlagCache.Cache.CollectExpired | featureflag/cache/cache.go:229-236 | collects exactly the expired keys, once each, in any map iteration order |
| FlagCache.Cache.RemoveExpiredItems | featureflag/cache/cache.go:222-244 | removes exactly the expired entries |
| FlagCache.MatchedRemove | featureflag/cache/cache.go:181-189 | taking one node and its key out keeps map and list in step |
| FlagCache.MatchedPromote | featureflag/cache/cache.go:103-105 | moving one node to the front keeps map and list in step and moves its key in the recency order |
| LruSpec.PutValid | featureflag/cache/cache.go:112-144 | after a Set the key is resident and in front with its new value and deadline, other entries are untouched, at most one key is lost, it was the last one, and never the key just set |
| LruSpec.TruncateStep | featureflag/cache/cache.go:193-204 | one round of the eviction loop shortens an overfull list by one and leads to the same result |
| LruSpec.AfterGetMeaning | featureflag/cache/cache.go:72-109 | a hit moves its key to the front and changes nothing else; a miss removes exactly an entry expired at both readings of the clock |
| LruSpec.PutFront | featureflag/cache/cache.go:112-144 | a Set keeps in front, behind its own key, those that were in front, as many as fit |
| SplitGet.RunKeeps | featureflag/cache/cache.go:72-163 | every interleaving of locked regions keeps a valid cache, a legal history, and threads whose answers are settled |
| SplitGet.BeginKeeps | featureflag/cache/cache.go:74-97 | the first region of every operation is its atomic effect on an expiring map |
| SplitGet.AftermathKeeps | featureflag/cache/cache.go:82-106 | what a Get does after its probe answers nobody and is a legal sweep or touch |
| Freshness.Linearizable | featureflag/cache/cache.go:72-163 | every run of any threads is linearizable to an atomic expiring map: each call has one effect, inside its interval, that gives its answer, in real-time order |
| Freshness.ReplayIsLastWrite | featureflag/cache/cache.go:112-154 | the expiring map holds a key exactly if it was stored and not disturbed since, with the value and deadline of that store |
| Freshness.GetIsFresh | featureflag/cache/cache.go:72-109 | in every interleaving a Get returns the latest undisturbed Set of its key if that is at most ttl old, and misses otherwise |
| Freshness.SweptOnlyIfOverdue | featureflag/cache/cache.go:82-93 | in every interleaving, what a Get or the cleanup expires had its latest Set more than ttl ago |
| Freshness.SweptIsLastCleanup | featureflag/cache/cache.go:207-219 | the time of the last cleanup, which the residency bound is about, is set by cleanups only |
| Freshness.ResidencyBound | featureflag/cache/cache.go:207-219 | if the last cleanup is at most ttl/2 ago, no resident entry was Set more than ttl + ttl/2 ago |
| Freshness.SweepLeavesUnexpired | featureflag/cache/cache.go:222-244 | a sweep leaves exactly the unexpired entries, unchanged and in their old relative order, and counts the others as evicted |
| Recency.ListIsDescending | featureflag/cache/cache.go:99-144 | in every interleaving the recency list is strictly descending in last touch |
| Recency.VictimIsOldest | featureflag/cache/cache.go:193-204 | the key that a Set pushes out of a full cache was touched before every other resident key |
| Recency.HitGoesOnToTouch | featureflag/cache/cache.go:95-101 | a Get that hits goes on to touch the item it found |
| Recency.TouchMovesIffResident | featureflag/cache/cache.go:99-106 | that moves the key to the front, and makes it the last one touched, exactly if the item is still resident |
| Recency.HoldsTheMostRecent | featureflag/cache/cache.go:72-144 | without expiry, Delete and Clear a key is resident exactly if fewer than maxSize distinct keys were touched after it |
| Sequential.GetIsTwoRegions | featureflag/cache/cache.go:72-109 | the sequential Get is the two locked regions of the step system, with time passing in between and nothing else |
| Sequential.DoAllIsDescending | featureflag/cache/cache.go:72-244 | after any sequence of operations the recency list is strictly descending in last Set or hit |
| Sequential.SequentialVictim | featureflag/cache/cache.go:193-204 | and what a Set pushes out was set or hit before every other resident key |
| Sequential.SequentialMostRecent | featureflag/cache/cache.go:72-144 | without expiry, Delete and Clear a key is resident exactly if fewer than maxSize distinct keys were set or hit after it |
| Inclusion.LruInclusion | featureflag/cache/cache.go:72-204 | fed the same timed operations, a smaller cache is a sub-list of a larger or unbounded one, with equal values and deadlines, and misses no more keys than the difference in size |
| Inclusion.LargerNeverLosesAHit | featureflag/cache/cache.go:72-109 | every hit in the smaller cache is a hit in the larger one with the same value |
| Scheduler.Machine.Execute | featureflag/cache/cache.go:72-244 | any schedule run on the cache objects keeps map and ring in step and ends in the state the step system computes, stale item pointers included |
| Scheduler.Machine.Region | featureflag/cache/cache.go:72-109 | each locked region on the heap is one step of the step system |
| Flags.Validate | featureflag/core/flag.go:82-98 | accepts exactly non-empty keys of letters, digits, hyphens and underscores; reports an empty key exactly for white space |
| Flags.ContentMeaning | featureflag/core/flag.go:37-63 | flags have the same content exactly if key, enabled, description and metadata are equal |
| StoreSpec.TimestampHistory | featureflag/storage/memory/store.go:43-110 | a key is present exactly if written and not dropped since, with the content and clock of its last write and the creation time of the first write of its span |
| StoreSpec.AnswersAreHistory | featureflag/storage/memory/store.go:25-80 | Get and Delete fail exactly for an empty key and for a key not written since it was dropped, with the error for each |
| StoreSpec.TimestampsOverASpan | featureflag/storage/memory/store.go:52-57 | until a Delete or Close the creation time stays and the update time never decreases |
| StoreSpec.SpanMeaning | featureflag/storage/memory/store.go:43-110 | the span starts at the first write since the key was absent, and nothing drops the key inside it |
| StoreSpec.ReplayValid | featureflag/storage/memory/store.go:43-110 | in every reachable state each flag sits under its own valid key, was created, and was not updated after the latest clock reading |
| MemoryStore.Clone | featureflag/core/flag.go:136-153 | an equal flag with a metadata map of its own; a nil map stays nil |
| MemoryStore.Store.Get | featureflag/storage/memory/store.go:25-40 | a fresh clone of the stored flag, or the error for an empty or a missing key |
| MemoryStore.Store.Set | featureflag/storage/memory/store.go:43-63 | the validation error, or a fresh clone under the flag's key with the old creation time and a new stamp |
| MemoryStore.Store.Prepare | featureflag/storage/memory/store.go:50-57 | the local copy gets the old creation time if there is one, and is stamped |
| MemoryStore.Store.Delete | featureflag/storage/memory/store.go:66-80 | succeeds exactly for a stored key, and removes it; reports an empty key as invalid and a missing one as not found |
| MemoryStore.Store.GetAll | featureflag/storage/memory/store.go:83-94 | every flag once, in any order, with metadata maps of their own |
| MemoryStore.Store.Close | featureflag/storage/memory/store.go:103-110 | forgets every flag |
| Isolation.Caller.Set | featureflag/storage/memory/store.go:43-63 | the caller still knows all it knew, whatever it passed, and none of it is a part of the store, which took in new objects only |
| Isolation.Caller.Get | featureflag/storage/memory/store.go:25-40 | whatever the caller wrote to the flags and metadata maps it passed or received, all of which it still knows, a read depends on the history of operations alone, and hands out new objects |
| Isolation.Caller.GetAll | featureflag/storage/memory/store.go:83-94 | the same for GetAll |
| Isolation.WriteEverywhere | featureflag/storage/memory/store.go:83-94 | pass a map to Set, overwrite it, overwrite what Get returned and its map: the next Get still returns what was set |
| Isolation.Caller.WriteMap | featureflag/core/flag.go:136-153 | a caller's write to any metadata map it knows leaves the store's contents as they are |
| Isolation.Caller.WriteFlag | featureflag/core/flag.go:136-153 | a caller's write to any flag it knows leaves the store's contents as they are |
| Backend.EveryGetAgrees | featureflag/cache/store.go:52-79 | after any run over a store with any flags, cached or not, a Get answers with the store's content or the store's error |
| Backend.MissFills | featureflag/cache/store.go:67-76 | a Get that missed leaves what it found in the cache, for a ttl, and counts one miss and one successful storage operation |
| Backend.SetFills | featureflag/cache/store.go:82-100 | a Set that succeeded leaves what it was given in the cache, for a ttl |
| Backend.HitStays | featureflag/cache/store.go:52-60 | a hit asks nobody, counts one hit, and what it hit stays cached |
| Backend.GetTwice | featureflag/cache/store.go:52-79 | two Gets in a row of a stored key that is not cached: one miss, one hit, one storage operation, one answer |
| Backend.WarmFills | featureflag/cache/store.go:137-141 | after GetAll the listed flags are in front of the cache, the last one first, all that fit |
| Backend.CleanupMeaning | featureflag/cache/cache.go:207-244 | a cleanup leaves exactly the unexpired entries, as they were |
| Backend.AlwaysCoherent | featureflag/cache/store.go:52-144 | in every run over a store with any flags, each cached entry, expired or not, has its key in the store and the store's content |
| Backend.Conservation | featureflag/cache/store.go:34-144 | over every sequential run: new items = size + evictions, hits + misses = Gets, storage operations = misses + Sets + Deletes + GetAlls, and the successes are those where the store had what was wanted |
| Counting.ConcurrentConservation | featureflag/cache/store.go:34-144 | in every interleaving: new items = size + evictions, Gets = hits + misses + Gets still probing, misses + Sets + Deletes + GetAlls = store calls made + store calls about to be made |
| Counting.ConservationAtRest | featureflag/cache/store.go:34-144 | so when all calls have returned, hits + misses = Gets and store calls = misses + Sets + Deletes + GetAlls |
| Uninterrupted.GetAlone | featureflag/cache/store.go:52-79 | a Get of the step system that nobody interrupts does, counts and answers what the sequential one does |
| Uninterrupted.SetAlone | featureflag/cache/store.go:82-100 | the same for Set |
| Uninterrupted.DeleteAlone | featureflag/cache/store.go:103-121 | the same for Delete |
| Uninterrupted.GetAllAlone | featureflag/cache/store.go:125-144 | the same for GetAll |
| CachedStore.CachedStore.constructor | featureflag/cache/store.go:34-49 | new objects around the given store: an empty cache whose eviction callback bumps the collector's counter, or no cache when caching is disabled; all counters at zero |
| CachedStore.CachedStore.Get | featureflag/cache/store.go:52-79 | a hit returns the cached pointer itself, a miss a new clone of the stored flag, whose pointer is then cached; every counter moves as it should |
| CachedStore.GetTwice | featureflag/cache/store.go:52-79 | the second of two Gets in a row returns the very pointer that the first one made and cached |
| CachedStore.CachedStore.Set | featureflag/cache/store.go:82-100 | writes the store, and on success caches a new pointer to the caller's struct, with the caller's own metadata map |
| CachedStore.CachedStore.Delete | featureflag/cache/store.go:103-121 | deletes in the store, and on success in the cache |
| CachedStore.CachedStore.GetAll | featureflag/cache/store.go:125-144 | answers with clones from the store alone and caches a new pointer for every flag, no two the same |
| CachedStore.CachedStore.WarmCache | featureflag/cache/store.go:137-141 | the loop caches every flag in order, behind new pointers of which no two are the same |
| CachedStore.CachedStore.Close | featureflag/cache/store.go:152-157 | empties the in-memory store and leaves the cache's items |
| CachedStore.CachedStore.CleanUp | featureflag/cache/cache.go:207-219 | a tick of the cleanup removes exactly the expired entries of the cache |
| CachedStore.WriteThroughHit | featureflag/cache/cache.go:96 | the cache hands out its own pointer: a write through it shows in the next hit, with or without a ttl |
| Sharing.WriteFlag | featureflag/cache/cache.go:96 | a caller's write to any flag changes the answer for a key exactly if a Get of it hits that pointer and a different flag is written; it changes the cached store's state exactly if the flag is behind some entry |
| Sharing.WriteMap | featureflag/cache/store.go:96 | the same for a metadata map and the cached flags that have it |
| Sharing.WriteBorrowed | featureflag/client/client.go:244-300 | writing to a flag that is no longer behind an entry leaves the client's state and the record of its calls as they were |
| Sharing.WriteOwnMap | featureflag/client/client.go:303-355 | a caller's own metadata map, written to after SetFlag, shows in GetFlag until the entry expires, and not in the store |
| Timestamps.TimestampsExactIff | featureflag/cache/store.go:52-144 | in every run a cached flag has the stored timestamps exactly if it was last cached by a Get that missed, a GetAll, or a Set of a flag that brought them along |
| ConcurrentStore.NoInventedValues | featureflag/cache/store.go:52-144 | in every interleaving of store and cache steps a returned flag equals, but for timestamps, one the store held under that key |
| Provenance.WatchRunIsRun | featureflag/cache/store.go:52-144 | the run that remembers who cached what, and when, is a run of the cached store |
| Provenance.HitIsRecent | featureflag/cache/store.go:52-144 | in every interleaving, what a Get hits was the store's content no earlier than the invocation of the operation that cached it, which was at most ttl ago |
| SerialisedStore.SerialisedCoherence | featureflag/cache/store.go:52-144 | for any number of threads, if no overlapping operations clash, cache and store agree on every key not just being written, and Gets and GetAlls answer like the store |
| SerialisedStore.SlowGetWitness | featureflag/cache/store.go:52-79 | without that, a slow Get brings an old flag back into the cache |
| Overlap.ClashIsExact | featureflag/cache/store.go:52-144 | two operations clash exactly if some schedule of the two ends at rest with a cache that disagrees with the store, for every size, ttl and time, and exactly if some such schedule makes a later Get answer with what the store does not hold |
| Overlap.NoClashNoBreak | featureflag/cache/store.go:52-144 | two operations that do not clash, made again and again by two threads, never do |
| Overlap.SlowAndFast | featureflag/cache/store.go:52-144 | a Get, GetAll or Set that is overtaken by a Set or Delete of its key leaves what it carries in the cache, unexpired: an old flag, or a deleted one |
| ClientSpec.CacheTransparency | featureflag/client/client.go:162-440 | after any defaults and any calls, a client with a cache of any size and ttl answers the next call like a client without one |
| ClientSpec.RunsSimulate | featureflag/client/client.go:162-440 | two such clients stay in step over whole runs: equal closed flags, equal store contents, a coherent cache |
| ClientSpec.AnswersAgree | featureflag/client/client.go:162-440 | clients in step answer alike: the same IsEnabled, the same errors, flags equal but for timestamps |
| ClientSpec.StartsSimulate | featureflag/client/client.go:67-129 | clients that loaded the same defaults at any times start in step |
| ClientSpec.CachedTimestampsExactIff | featureflag/cache/store.go:82-100 | the flag a hit returns after SetFlag has the stored timestamps exactly if both stamps read the same clock and the key was new or the flag brought the stored creation time |
| ClientSpec.CachedCreationTimeWitness | featureflag/cache/store.go:96 | an update that reads back with the wrong creation time |
| Defaults.DefaultsFirstWins | featureflag/client/client.go:513-537 | loading defaults leaves every stored flag, adds exactly the valid default keys, and keeps the first of several defaults with one key |
| Defaults.DefaultsTwice | featureflag/client/client.go:513-537 | loading them again, at any later times, changes no stored flag |
| Defaults.LoadOneMeaning | featureflag/client/client.go:518-534 | a round looks the flag up, and sets it exactly if the key is not empty and not stored |
| History.TableIsHistory | featureflag/client/client.go:162-440 | after any calls an open client's store holds exactly the flags of the last SetFlag of each key that no DeleteFlag followed, or else of its first default |
| History.AnswersAreHistory | featureflag/client/client.go:162-300 | so IsEnabled answers with the bit of that flag, and GetFlag with that flag but for timestamps, through any cache |
| History.ListIsHistory | featureflag/client/client.go:408-440 | GetAllFlags lists one flag for each key that has a current one, with its content, and no other |
| History.DeleteIsHistory | featureflag/client/client.go:358-405 | DeleteFlag succeeds exactly if the key has a current flag, and else reports not found |
| History.InputAnswers | featureflag/client/client.go:303-375 | SetFlag succeeds exactly for valid keys; an empty key is refused as invalid by every call; refused calls change nothing |
| History.ClosedAnswers | featureflag/client/client.go:176-184 | every call on a closed client is answered with the closed error, unless its input is invalid, and changes nothing |
| History.CloseEmpties | featureflag/client/client.go:481-510 | the first Close empties the store and leaves the cache; later ones do nothing |
| History.CallsReachTheStore | featureflag/client/client.go:162-440 | on an open client a call with valid input does to the cached store exactly its own request, SetFlag's flag being stamped |
| RecordedAnswers.AskEnabled | featureflag/client/client.go:162-241 | what IsEnabled returns on the heap, told from the calls on record |
| RecordedAnswers.AskFlag | featureflag/client/client.go:244-300 | the same for GetFlag |
| RecordedAnswers.AskDelete | featureflag/client/client.go:358-405 | the same for DeleteFlag |
| RecordedAnswers.AskAll | featureflag/client/client.go:408-440 | the structs that GetAllFlags returns have exactly the current flags' contents |
| Client.FlagClient.NewClient | featureflag/client/client.go:67-129 | a new client over its store, with the default flags loaded |
| Client.FlagClient.constructor | featureflag/client/client.go:106-114 | the bare struct: not closed, over the given store |
| Client.FlagClient.LoadDefaultFlags | featureflag/client/client.go:513-537 | the loop does what the value computation says, through the cache or without one |
| Client.FlagClient.IsEnabled | featureflag/client/client.go:162-241 | the answer and the new state that the client's state determines; false without an error for a missing flag; the call goes on record |
| Client.FlagClient.GetFlag | featureflag/client/client.go:244-300 | a pointer to the flag, or the error, that the client's state determines |
| Client.FlagClient.SetFlag | featureflag/client/client.go:303-355 | validation first, then the closed check, then stamp and store |
| Client.FlagClient.DeleteFlag | featureflag/client/client.go:358-405 | input check, closed check, then the store's answer |
| Client.FlagClient.GetAllFlags | featureflag/client/client.go:408-440 | the stored flags in some order, or the closed error |
| Client.FlagClient.Close | featureflag/client/client.go:481-510 | the first Close empties the store, later ones leave it alone |
| Client.TransparentOnTheHeap | featureflag/client/client.go:162-440 | cache transparency for two clients on the heap, whatever calls are on their record |
| Client.SideBySide | featureflag/client/client.go:162-300 | two such clients, made, given a flag and asked: the same error, or flags behind the two pointers that differ in timestamps only |
| CloseProtocol.ClosedOnce | featureflag/client/client.go:481-510 | in every interleaving one swap wins and the store is closed at most once, before any Close returns |
| CloseProtocol.RefusedIffCheckedAfterSwap | featureflag/client/client.go:162-184 | a call is refused, without asking the store, exactly if its closed check ran after the winning swap |
| CloseProtocol.LateCallWitness | featureflag/client/client.go:176-192 | a call that checked before the swap may ask the store after it was closed |
| CloseProtocol.AskedLateIff | featureflag/client/client.go:162-510 | once the client is closed, the store is asked for exactly those calls that were past their check and without a reply |
| CloseProtocol.AsksNext | featureflag/client/client.go:185-192 | the next step of such a call does ask |
| CloseProtocol.QuietCloseIsFinal | featureflag/client/client.go:481-510 | if no call was in flight when the client was closed, the store is never asked again |
| LateCalls.LateGetReturnsKept | featureflag/cache/store.go:52-79 | a Get that finishes after the store was closed returns only what the cache kept or a call in flight had |
| LateCalls.LateGetHits | featureflag/cache/store.go:152-157 | and it does return an unexpired flag that the cache kept, from an empty store |
| LateCalls.LateSetStaysIff | featureflag/cache/store.go:82-100 | a closed store can hold a content again exactly if a Set of it had not reached the store when it was closed |
| Metrics.WindowIsLatest | featureflag/observability/metrics.go:172-182 | after n recordings the window has min(n, limit) durations, which are the last ones, in order |
| Metrics.Durations.Record | featureflag/observability/metrics.go:172-182 | append, then an overlapping copy within the array: the window ends in the new duration, and before it has the last of what it had, in order |
| Metrics.Durations.Average | featureflag/observability/metrics.go:185-199 | the int64 loop computes the wrapped total divided with truncation |
| Metrics.SumConcat | featureflag/observability/metrics.go:190-195 | the total is the sum of the durations, one by one |
| Metrics.TruncDiv | featureflag/observability/metrics.go:198 | the division rounds toward zero |
| Metrics.AverageExactIffTotalFits | featureflag/observability/metrics.go:185-199 | the average is the truncated mean exactly if the total fits an int64, for durations of any sign |
| Metrics.AverageOfNonNegative | featureflag/observability/metrics.go:185-199 | for durations that are not negative: exactly if the total is below 2^63 |
| Metrics.AverageWithinWindow | featureflag/observability/metrics.go:185-199 | durations up to (2^63 - 1)/1000 never overflow and the average lies between the window's least and greatest |
| Metrics.OverflowWitness | featureflag/observability/metrics.go:185-199 | two durations whose average comes out negative |
| CachedStore.CachedStore.RecordStorageOperation | featureflag/observability/metrics.go:126-132 | counts the operation, and its success, in the collector, records one duration in its window, and does nothing else |
| Metrics.Collector.RecordStorageOperation | featureflag/observability/metrics.go:126-132 | one more operation, one more success if it was one, and the duration in the window |

## Left out

- Redis and Postgres stores: network and SQL clients; their creation-time rules differ from the in-memory store's.
- Logging, configuration loading, the error classification switches, HealthCheck, GetMetrics snapshots, createStore and parseLogLevel: no effect on what is modelled, or easy.
- Error wrapping: an error is its kind (not found, invalid flag, empty key, bad character, client closed); operation names and messages are not kept.
- Contexts and cancellation: the in-memory store and the cache do not look at them.
- Real time, goroutines and tickers: replaced with clock readings, steps and ticks. A ttl of one nanosecond, for which `ttl / 2` is a zero ticker period that Go refuses, is not treated apart.
- Integer width of deadlines and counters: `expiresAt` and the counters are unbounded integers; only the duration average has int64 arithmetic.
- Go's container/list is not part of the repository: its ring is modelled as its documentation describes, with a sentinel, for the operations the cache uses. The lazy initialisation of a zero list is not.
- Callers' writes to cached flags: the methods of `CachedStore` and `Client` are proved for cached flags as they are at the time, whatever was written to them; the results about whole histories of a client on the heap (`OnRecord`) are for histories in which no write changed a flag behind an entry, which `Sharing` characterises.
- CachedStore.CachedStore.Get: the cached store and the client on the heap are sequential; interleavings of their operations are in ConcurrentStore, SerialisedStore and CloseProtocol, on values.
- Inclusion.LruInclusion: the two runs are sequential, since a different interleaving in each run would be no common trace.
- CachedStore.CachedStore.RecordStorageOperation: the duration it records is arbitrary (it is a difference of clock readings), so what the window holds after a run of a cached store is not stated beyond that.
- The no-op collector that NewClient passes: the client on the heap has a collector that nobody reads.
- LateCalls.LateGetReturnsKept: the closing protocol and the late run are two step systems; that the calls in flight of the one are the calls past their check of the other is not a theorem.
- Client.FlagClient.Close: an error of the store's Close is not modelled, the in-memory store has none.
- The client's own metrics (flag checks, gets, sets, errors) are not modelled.
