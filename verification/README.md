# pagrx in Dafny

A model of the core of pagrx, a paginated item cache with a sliding window
on top. It has three parts.

- **The page cache** (`PagRX`, `PagRXIsland` in `src/index.ts`). It is
  modelled in `island.dfy` (module `Islands`) and `cache.dfy` (module
  `PageCache`).
  - Items are grouped into pages of `pageSize` items.
  - Pages live in *islands*, which are gap-free runs of pages.
  - A request for an item goes to the first island that holds or touches
    the item's page. The page is fetched, and created by one loader call
    if it is missing.
  - A global access counter then runs an LRU pass. The pass evicts stale
    pages from island ends and drops emptied islands.
  - Finally, the touched island absorbs an island that starts right after
    it.
- **The sliding window** (`PagRXSlidingWindow`, `PagRXChunk`). It is
  modelled in `window.dfy` (module `SlidingWindow`).
  - The window is a doubly linked list of chunks around a root chunk, and
    it grows lazily.
  - `jumpTo` starts a new list at an offset.
  - `getRelativeRange(from, to)` walks from the root to `from` and then
    forward to `to`. It loads every missing neighbour on the way with
    exactly one loader call.
- **The two ready-made chunk loaders** (`src/utils.ts`). They are modelled
  in `callbacks.dfy` (module `WindowCallbacks`). Each computes a chunk
  index from the root offset or from the neighbour's tag, then fetches one
  item or one `chunkSize` run of items from the cache.

Shared option, result and error types are in `types.dfy` (module
`PagrxTypes`).

**Modelling choices**

- **Requests as transitions.** Every cache request does all of its
  bookkeeping before it awaits the loader. So a request is a pure
  transition on `Cache(islands, counter, loads)`.
  - `loads` is the log of loader calls, with the page index and page size
    of each call.
  - A page stores the log position of the call whose result it holds.
  - "The loader is called" therefore means "one entry is appended to
    `loads`".
- **The window's log.** The window likewise keeps a log of chunk-loader
  calls. A chunk is named by the position of its call, and links live in a
  map keyed by chunk id.
- **Positions.** The window gives each chunk a *position*, which is the
  item index it stands for:
  - a root call's offset;
  - or one more or one less than the chunk its extension call names.

  `WindowCallbacks.LoaderTagIsPosition` shows that this is exactly the
  index both ready-made loaders compute from their neighbour's tag.
- **Errors.** Each thrown error and each rejected promise becomes a
  `Failure` with its own error code.
  - A failed cache request leaves the cache unchanged. This matches the
    source, because `getIsland` throws before any state changes.
  - A failed range query leaves the window unchanged.
- **Overlapping islands.** The cache does not keep islands disjoint.
  - Take page size 20 and the requests 40, 0, 20, 0. The last request
    grows the island holding pages 1 to 2 down to page 0, although a
    second island already holds page 0.
  - So the model proves no disjointness. Instead,
    `PageCache.GetLoadsUnlessHeld` states exactly when a request calls the
    loader.
- **A dropped touched island.** When the LRU pass drops the island a
  request touched (possible only with a threshold of at most 1), the
  forward merge still appends the candidate to that dropped island. The
  candidate is then removed from the list. `PageCache.OptimizeIslands`
  models this with `pos = None`.

## Model

| member | source | states |
|---|---|---|
| PagrxTypes.DefaultOptionsValid | src/index.ts:25-31 | The defaults are 20 items per page, a threshold of 1000 requests and islands allowed, and they are valid options. |
| Islands.ContainsPage | src/index.ts:116-126 | With `orTouchesPage`, an island holds or touches p exactly when p lies from one before its base to one past its last page. Without it, the island holds p exactly when it covers p. An empty island still claims its own base. |
| Islands.GetPage | src/index.ts:69-108 | A covered page is returned restamped, and the loader is not called. A miss fails with OutOfRange when creation is off. A creating miss succeeds exactly for the two neighbouring indices or an empty island, otherwise it fails with NotNeighbouring. A created page holds the next load and grows the island by one. On success, p maps to the returned page and every other index keeps its page. |
| Islands.GetPageLoadsOnce | src/index.ts:69-108 | Once a lookup of p has succeeded, a second lookup of p never calls the loader. It returns the page with the same load. |
| Islands.GetPageKeepsLoads | src/index.ts:82-105 | After a lookup, every page still holds a load made for its own index. A created page holds the call appended for it. |
| Islands.GetPageKeepsTouchedBefore | src/index.ts:69-74 | A lookup stamped below a counter bound keeps every page stamped below that bound. |
| Islands.Append | src/index.ts:132-137 | Merging succeeds exactly when the other island starts right after this one, and fails with AppendMismatch otherwise. The merged island keeps the base and serves every page either island served. |
| Islands.AppendKeepsInvariants | src/index.ts:132-137 | A merge keeps every page tied to a load of its own index and stamped below the counter. |
| Islands.ResetLRU | src/index.ts:144-148 | Every page is restamped with the given counter and keeps its load. The base and the length are unchanged. |
| Islands.HandlePageRemoval | src/index.ts:155-167 | A fresh page leaves the island unchanged. A stale page is removed exactly when it is the first or the last one, otherwise NotBoundaryPage is raised. Removal leaves every other page at its own index. |
| Islands.UpdateLRU | src/index.ts:176-188 | The flag is set exactly when the island ends empty. A negative counter restamps every page and evicts nothing. Otherwise survivors are unchanged and only stale end pages go. The first page goes exactly when stale. With more than two pages, the last page goes exactly when stale. With two pages, the last page is spared when the first one was dropped. |
| Islands.UpdateLRUKeepsInvariants | src/index.ts:176-188 | The LRU pass keeps both page invariants. |
| PageCache.ItemToLocation | src/index.ts:236-241 | The item is page * pageSize + local, with 0 <= local < pageSize. This is floor division, which also holds for negative items. |
| PageCache.FindIsland | src/index.ts:244-248 | Finds the first island that holds or touches p, and None only when no island does. |
| PageCache.GetIsland | src/index.ts:243-255 | Reuses the first island touching p with the list unchanged. Otherwise it appends a new empty island based at p. It fails with AllowIslandsDisabled exactly when islands are disabled, some island exists and none touches p. |
| PageCache.UpdateAllLRU | src/index.ts:280-283 | The LRU pass over all islands never lengthens the list and leaves no empty island. |
| PageCache.Survivors | src/index.ts:281 | Reference for the filter: the increasing positions of exactly the islands the pass does not empty. |
| PageCache.UpdateAllLRUIsSurvivors | src/index.ts:280-283 | The pass keeps exactly the surviving islands, in order. Its i-th island is the update of the i-th survivor. |
| PageCache.UpdateAllLRUConcat | src/index.ts:281 | The filter distributes over concatenation of island lists. |
| PageCache.UpdateAllLRUPosition | src/index.ts:281 | A surviving island lands after the survivors of the islands listed before it. |
| PageCache.FindByBase | src/index.ts:262-265 | Finds the first island whose first page is the given index, and None only when there is none. |
| PageCache.Remove | src/index.ts:268 | Removing position m shifts every later island down by one and keeps every other island. |
| PageCache.MergeAt | src/index.ts:266-269 | The merged island replaces the touched one and the candidate is removed. Every other island keeps its relative place. |
| PageCache.OptimizeIslands | src/index.ts:261-270 | Without a candidate starting right after the touched island, the list is unchanged. Otherwise the candidate is removed and the others keep their relative place. If the touched island is still listed, it now serves the candidate's pages too. Every result island was listed or is the merge. |
| PageCache.ServePage | src/index.ts:206-207 | It fails exactly as GetIsland does. On success the serving island is the first listed one touching the page, or a new one at the end. The page sits at its own index, stamped with the pre-increment counter. It was loaded exactly when the serving island did not cover it. Only the serving island changes. |
| PageCache.ServePageFrame | src/index.ts:69-108 | Inside the serving island only the served page changes. Every other index keeps its page, the island grows by exactly the loaded page, and the base moves down to the page only when it was loaded below the island or into a new one. |
| PageCache.Settle | src/index.ts:208-209 | After the LRU pass and the merge, no empty island is listed. |
| PageCache.SettleOrigin | src/index.ts:208-209 | Every island left by settling is an LRU survivor, or the touched island merged with one. |
| PageCache.SettleKeepsOthers | src/index.ts:261-270 | The converse of SettleOrigin: settling keeps every LRU survivor other than the merge candidate, in order. Without a candidate starting right after the touched island, the list is exactly the LRU pass's result. With one, it is one island shorter and the candidate is gone. The touched island, if it survived, is replaced by its merge with the candidate, and every other survivor keeps its relative place. |
| PageCache.Get | src/index.ts:203-222 | A request fails, with AllowIslandsDisabled and the cache unchanged, exactly when islands are disabled, some island exists and none touches the page. On success it reports the item's floor-division location and advances the counter by one. It appends at most one loader call, for the item's page with the configured page size, and that call is the access's load. |
| PageCache.GetServed | src/index.ts:203-209 | A request succeeds exactly when its page can be served. |
| PageCache.EmptyInv | src/index.ts:195-201 | A new cache satisfies the invariant. |
| PageCache.GetKeepsInv | src/index.ts:203-222 | Every request keeps the invariant. Every cached page holds a load of its own index with the configured size and is stamped below the counter. A served item comes from a loader call made for its own page. |
| PageCache.ServedKeepsInv | src/index.ts:206-209 | The state after a served page and settling satisfies the invariant. The served page's load is the call for its page. |
| PageCache.GetLoadsUnlessHeld | src/index.ts:206-207 | The loader is called exactly when the first island holding or touching the page does not hold it. |
| PageCache.GetKeepsPageCached | src/index.ts:206-209 | With a threshold above 1, the page just served is still cached after the request, with the pre-increment stamp and the served load. |
| PageCache.SettleKeepsFreshPage | src/index.ts:208-209 | A fresh page of the touched island survives the LRU pass and the merge unchanged. |
| PageCache.Reset | src/index.ts:272-274 | Reset clears the islands and keeps the counter and the loader log. |
| PageCache.ResetForcesReload | src/index.ts:272-274 | After a reset, any request succeeds and calls the loader once more for its page. |
| PageCache.ResetKeepsInv | src/index.ts:272-274 | A reset keeps the invariant. |
| PageCache.GetAll | src/index.ts:229-233 | Requests are issued in order. On success the i-th access is for the i-th item. With islands allowed, every run succeeds, and only AllowIslandsDisabled can fail it. The counter never falls and never advances by more than |items|; it advances by exactly |items| if and only if every request succeeds. Loader calls are only appended, at most one per request. |
| PageCache.GetAllSnoc | src/index.ts:229-231 | A run followed by one more item equals the run followed by a single request. The earliest failure is kept. |
| PageCache.GetAllKeepsInv | src/index.ts:229-231 | A run of requests keeps the invariant. |
| PageCache.Interval | src/index.ts:229 | The consecutive indices from start up to, not including, end. |
| PageCache.GetRange | src/index.ts:224-234 | It fails with InvalidRange, before any request, exactly when end < start. On success it returns end - start accesses, the i-th for item start + i, with the counter advanced by that many. With islands allowed, every non-reversed range succeeds. |
| SlidingWindow.InitialValid | src/index.ts:322-332 | A new window satisfies the window invariant. |
| SlidingWindow.RootOf | src/index.ts:334-340 | The root, or NotInitialized exactly when no jump has happened. |
| SlidingWindow.JumpTo | src/index.ts:342-345 | A jump records the offset, makes one root call for it and replaces the list by a single root chunk. |
| SlidingWindow.JumpToRoot | src/index.ts:342-345 | After a jump the window is valid and the root is the chunk of the new root call, with no neighbours. |
| SlidingWindow.JumpToPositioned | src/index.ts:342-345 | After a jump every link steps the position by one, and the root stands for the offset jumped to. |
| SlidingWindow.Load | src/index.ts:353-385 | The neighbour of n in the given direction is returned and linked both ways. A set link is followed with nothing changed. An unset one costs exactly one loader call and one new chunk, whose onward link is unset. Only the link of n in that direction changes: its other link and every other existing chunk are untouched. |
| SlidingWindow.LoadKeepsValid | src/index.ts:353-373 | A load keeps the window invariant: logged chunks, mirrored links, well-formed log, live root, recorded extensions. |
| SlidingWindow.LoadCallsOncePerLink | src/index.ts:355-356 | A chunk already extended in a direction is never extended again: a repeated load leaves the window unchanged. |
| SlidingWindow.PositionPrefix | src/index.ts:358-364 | Later loader calls do not move existing chunks. |
| SlidingWindow.LoadKeepsPositioned | src/index.ts:365-371 | A load places the neighbour one step from the chunk it extends, and every link still steps the position by one. |
| SlidingWindow.Walk | src/index.ts:391-395 | Walking ends n links from the start in the given direction. It only appends loader calls, at most one per step, keeps existing links and keeps both window invariants. |
| SlidingWindow.Collect | src/index.ts:396-401 | Loads count chunks forward of the current one as a forward-linked chain. It appends at most one loader call per chunk and keeps both window invariants. |
| SlidingWindow.GetRelativeRange | src/index.ts:387-410 | It fails with InvalidRange exactly when from > to, and with NotInitialized before a jump. A failure leaves the window unchanged. Otherwise it returns to - from + 1 chunks and keeps the root and the offset. It only adds links and appends loader calls, at most one per link it walks (\|from\|) or collects (to - from). |
| SlidingWindow.GetRelativeRangeChain | src/index.ts:391-401 | A range query keeps the window valid. Its first chunk is Distance(from) links from the root towards Heading(from), and its chunks form a forward-linked chain. |
| SlidingWindow.WalkReuses | src/index.ts:374-384 | Walking along links that are all set loads nothing. |
| SlidingWindow.CollectReuses | src/index.ts:374-378 | Collecting along an existing chain loads nothing. |
| SlidingWindow.GetRelativeRangeTwice | src/index.ts:387-401 | Asking again for the same range loads nothing and returns the same chunks. |
| SlidingWindow.FollowPosition | src/index.ts:392-395 | Following n links moves the position by n in the link direction. |
| SlidingWindow.ChainPosition | src/index.ts:396-401 | Along a forward chain the position grows by one per chunk. |
| SlidingWindow.RelativeRangePositions | src/index.ts:387-401 | A range query keeps chunks where they stand, and its i-th chunk stands for topItemOffset + from + i. |
| WindowCallbacks.ChunkIndex | src/utils.ts:9-20 | A root call resolves to its own offset. A forward extension resolves to one past the neighbour's top offset, a backward one to one before its bottom offset. |
| WindowCallbacks.SimpleCallback | src/utils.ts:9-22 | For a root call the loader requests item offset; forward, item neighbour.topOffset + 1; backward, item neighbour.bottomOffset - 1. The chunk is tagged with that item at both ends. |
| WindowCallbacks.ArrayItems | src/utils.ts:36 | Chunk k covers exactly chunkSize consecutive item indices. |
| WindowCallbacks.ArrayChunksTile | src/utils.ts:36 | Consecutive array chunks tile the items with no gap and no overlap. |
| WindowCallbacks.ArrayChunkOf | src/utils.ts:36 | With a positive size, an item lies in chunk k exactly when k is the item index divided by the size, rounded down. |
| WindowCallbacks.ArrayCallback | src/utils.ts:34-46 | The chunk index is offset for a root call, neighbour.topOffset + 1 forward and neighbour.bottomOffset - 1 backward. The loader requests items [index * chunkSize, (index + 1) * chunkSize) and tags the chunk with the index at both ends. |
| WindowCallbacks.ArrayChunkFetch | src/utils.ts:43 | Fetching chunk k fails with InvalidRange exactly for a negative size. With islands allowed and a non-negative size, it yields chunkSize accesses, the i-th for item k * chunkSize + i. |
| WindowCallbacks.LoaderTagIsPosition | src/utils.ts:16-20 | Feeding each extension the tag the loader gave its neighbour, every chunk of a window is tagged with its position. |
| WindowCallbacks.LoaderCallAtPosition | src/utils.ts:9-20 | The loader call for a chunk asks for the item at the chunk's position, or for the array chunk at that position. |
| WindowCallbacks.JumpThenRange | src/utils.ts:9-20 | After jumpTo(offset), getRelativeRange(from, to) succeeds exactly when from <= to. For the i-th chunk, the one-item loader called with the chunk's direction and its neighbour's tag requests item offset + from + i. The array loader requests the items of chunk offset + from + i. |
| Scenarios.MergeScenario | test/pagrx-islands.spec.ts:53-68 | Requests for pages P, P + 2 and P + 1 of a fresh cache leave two islands after the second request and one island of three pages after the third. |
| Scenarios.MergeFirst | test/pagrx-islands.spec.ts:53-68 | Requesting item 0 of a fresh cache loads page 0 into a new island, with one loader call. |
| Scenarios.MergeSecond | test/pagrx-islands.spec.ts:53-68 | Requesting item 40 then loads page 2 into a second island, with a second loader call. |
| Scenarios.MergeThird | test/pagrx-islands.spec.ts:53-68 | Requesting item 20 grows the first island to page 1 and merges the second into it, giving pages 0, 1, 2 in one island. |
| Scenarios.EvictNotYet | test/pagrx-cache.spec.ts:8-26 | With threshold 10, a page stamped at counter 0 survives the request that moves the counter to 9. |
| Scenarios.EvictNow | test/pagrx-cache.spec.ts:8-26 | The request that moves the counter to 10 drops that page, and the island's base shifts to the surviving page. |
| Scenarios.EvictScenario | test/pagrx-cache.spec.ts:8-26 | From a fresh cache with threshold 10, request item 0 and then items 20 to 27. After these nine requests, one island still holds two pages. The tenth request, for item 20, leaves one island of one page based at page 1. |
| Scenarios.Warmed | test/pagrx-cache.spec.ts:10-14 | After the nine warm-up requests, page 0 still carries stamp 0, page 1 carries stamp 8, and the loader was called twice. |
| Scenarios.WarmupFirst | test/pagrx-cache.spec.ts:10 | The first request, for item 0, loads page 0 into a new island. |
| Scenarios.WarmupSecond | test/pagrx-cache.spec.ts:12-13 | The request for item 20 loads page 1 at the island's end. |
| Scenarios.Restamp | test/pagrx-cache.spec.ts:12-13 | Each later request for an item of page 1 only restamps it. Page 0 survives while the counter stays below 10. |
| Scenarios.JumpAgain | test/pagrx-window-simple.spec.ts:41-54 | After a query at 20, jumping to 40 and querying -1 through 3 yields five chunks, and the one-item loader is asked for item 39 for the first. |
| Scenarios.WindowReuse | test/pagrx-window-simple.spec.ts:56-71 | A range query of one chunk after a jump to 20, then a wider one around the same root. The second query loads only the chunk it lacks, so the loader runs twice in all, and that chunk asks for item 19. |

## Left out

- Promises and asynchrony: each request's synchronous bookkeeping is modelled. The awaited loader results and the order in which promises settle are not.
- Page contents: a page records which loader call filled it, not the items. A loader that returns an empty page (which makes the request never resolve) is not modelled.
- Number precision: counters, indices and offsets are unbounded integers. JavaScript numbers lose precision above 2^53, which is not modelled.
- Non-integer, NaN and missing numbers: every index, offset and option is an integer here, and every option is present. The source does not check this, and three behaviours follow that are not modelled.
  - A fractional or NaN `from` never meets the `i != from` test at src/index.ts:392, so the walk calls the loader forever. `Distance` is a `nat` instead.
  - An options object without `pagesLRUThreshold` makes `lruCounter - pagesLRUThreshold` NaN at src/index.ts:157, so no page is ever evicted. `Options.pagesLRUThreshold` is an `int` instead.
  - A non-integer `jumpTo` offset fails `Number.isInteger` at src/utils.ts:9, so the ready-made loaders treat it as a direction and read the data of a missing neighbour.
- UpdateLRU: the negative-counter restamp is modelled, but the counter starts at 0 and only grows, so that branch is unreachable from a new cache.
- The page size must be positive (`ValidOptions`). With a zero page size, JavaScript gives `item / 0` as Infinity or NaN at src/index.ts:237, so page indices become non-numbers. A negative page size reverses the floor division. Neither case is modelled.
- Thrown errors and rejected promises are both a `Failure`. Whether an error surfaces synchronously or as a rejection is not distinguished.
- PageCache.GetAll: after a partial failure, the counter is only bounded: it lies between the old counter and the old counter plus |items|, below the upper bound. The exact number of successful requests is not stated in the contract, and GetAllSnoc together with Get pins each step instead.
- GetAll: every request of a range is issued even after one has failed, and the combined result is the earliest failure. Which rejection `Promise.all` reports in time order is not modelled.
- The chunk loaders' data: chunks are tagged with their index only. The fetched items or item arrays are not carried.
- `src/utils.ts` imports a `PagRXChunkDirection` enum that `src/index.ts` does not define. Directions are modelled as the string or number the window passes.
- User-supplied chunk loaders other than the two ready-made ones are left out: the window is modelled against any loader, and only the two ready-made ones are given index arithmetic.
- Island disjointness: the cache does not keep islands disjoint (see above), so no such invariant is stated.
