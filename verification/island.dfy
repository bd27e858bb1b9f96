/** An island: a gap-free run of cached pages starting at a base page index.
    It grows one page at a time at either end and evicts least recently used
    pages from its two ends only. */
module Islands {
  import opened PagrxTypes

  /** One invocation of the item loader, with the page index and page size
      it was asked for. */
  datatype LoadCall = LoadCall(pageIndex: int, pageSize: int)

  /** A cached page: the access counter of its last use, and the position in
      the loader-call log of the call whose result it holds. */
  datatype Page = Page(lru: int, load: nat)

  /** pages[i] is the page with index base + i. */
  datatype Island = Island(base: int, pages: seq<Page>)

  /** The index of the island's last page (one below base when empty). */
  function Top(isl: Island): (top: int) {
    isl.base + |isl.pages| - 1
  }

  predicate Covers(isl: Island, p: int) {
    isl.base <= p < isl.base + |isl.pages|
  }

  /** The abstract view of an island: a partial map from page index to page. */
  function PageAt(isl: Island, p: int): (r: Option<Page>) {
    if Covers(isl, p) then Some(isl.pages[p - isl.base]) else None
  }

  /** Every page of the island holds the result of a loader call made for
      that very page index. */
  ghost predicate PagesMatchLoads(isl: Island, loads: seq<LoadCall>) {
    forall q :: Covers(isl, q) ==>
      PageAt(isl, q).value.load < |loads| && loads[PageAt(isl, q).value.load].pageIndex == q
  }

  /** Every page of the island was last touched before the given counter value. */
  ghost predicate TouchedBefore(isl: Island, counter: int) {
    forall q :: Covers(isl, q) ==> PageAt(isl, q).value.lru < counter
  }

  /** Membership test; with orTouchesPage the two indices adjacent to the
      island's ends are accepted as well. An empty island still answers
      true for its own base index. */
  function ContainsPage(isl: Island, p: int, orTouchesPage: bool): (r: bool)
    ensures orTouchesPage ==> (r <==> isl.base - 1 <= p <= isl.base + |isl.pages|)
    ensures !orTouchesPage && |isl.pages| > 0 ==> (r <==> Covers(isl, p))
    ensures !orTouchesPage && |isl.pages| == 0 ==> (r <==> p == isl.base)
  {
    (orTouchesPage && (p == isl.base - 1 || p == |isl.pages| + isl.base))
    || p == isl.base
    || (p >= isl.base && p < |isl.pages| + isl.base)
  }

  /** What a successful page lookup yields: the updated island, the page,
      and whether the loader had to be called for it. */
  datatype PageHit = PageHit(island: Island, page: Page, loaded: bool)

  /** Looks up page p, stamping it with the counter value lru. A missing page
      is created (by one loader call, which gets log position nextLoad) only
      when createMissing holds and p extends the island by one page at
      either end, or the island is empty. */
  function GetPage(isl: Island, p: int, lru: int, createMissing: bool, nextLoad: nat): (r: Result<PageHit>)
    // A hit returns the stored page with its counter refreshed and calls no loader.
    ensures Covers(isl, p) ==>
      && r.Success? && !r.value.loaded
      && r.value.page == Page(lru, isl.pages[p - isl.base].load)
      && r.value.island.base == isl.base
      && |r.value.island.pages| == |isl.pages|
    ensures !Covers(isl, p) && !createMissing ==> r == Failure(OutOfRange)
    // A creating miss succeeds exactly for the two neighbouring indices or an empty island.
    ensures !Covers(isl, p) && createMissing ==>
      (r.Success? <==> (p == isl.base - 1 || p == isl.base + |isl.pages| || |isl.pages| == 0))
    ensures !Covers(isl, p) && createMissing && r.Failure? ==> r.error == NotNeighbouring
    ensures !Covers(isl, p) && r.Success? ==>
      && r.value.loaded
      && r.value.page == Page(lru, nextLoad)
      && |r.value.island.pages| == |isl.pages| + 1
    // Any index the island touches can be served when creation is allowed.
    ensures createMissing && ContainsPage(isl, p, true) ==> r.Success?
    // On success the page sits at its own index and every other index keeps its page.
    ensures r.Success? ==> PageAt(r.value.island, p) == Some(r.value.page)
    ensures r.Success? ==> forall q :: q != p ==> PageAt(r.value.island, q) == PageAt(isl, q)
  {
    var local := p - isl.base;
    if 0 <= local < |isl.pages| then
      var page := isl.pages[local].(lru := lru);
      Success(PageHit(isl.(pages := isl.pages[local := page]), page, false))
    else if !createMissing then
      Failure(OutOfRange)
    else if local == |isl.pages| || local == -1 || |isl.pages| == 0 then
      var page := Page(lru, nextLoad);
      if local <= 0 || |isl.pages| == 0 then
        Success(PageHit(Island(p, [page] + isl.pages), page, true))
      else
        Success(PageHit(isl.(pages := isl.pages + [page]), page, true))
    else
      Failure(NotNeighbouring)
  }

  /** Concatenates other's pages onto isl; only an island starting right
      after isl's last page may be appended. */
  function Append(isl: Island, other: Island): (r: Result<Island>)
    ensures r.Success? <==> other.base == isl.base + |isl.pages|
    ensures r.Failure? ==> r.error == AppendMismatch
    ensures r.Success? ==> r.value.base == isl.base && |r.value.pages| == |isl.pages| + |other.pages|
    // The merged island serves every page either island served.
    ensures r.Success? ==> forall q ::
      PageAt(r.value, q) == (if Covers(isl, q) then PageAt(isl, q) else PageAt(other, q))
  {
    if isl.base + |isl.pages| != other.base then
      Failure(AppendMismatch)
    else
      Success(Island(isl.base, isl.pages + other.pages))
  }

  /** Counter wrap-around fallback: every page gets the given counter value. */
  function ResetLRU(isl: Island, lruCounter: int): (r: Island)
    ensures r.base == isl.base && |r.pages| == |isl.pages|
    ensures forall q :: Covers(isl, q) ==> PageAt(r, q) == Some(Page(lruCounter, PageAt(isl, q).value.load))
  {
    Island(isl.base, seq(|isl.pages|, i requires 0 <= i < |isl.pages| => isl.pages[i].(lru := lruCounter)))
  }

  /** Drops the page at position index if it has gone stale; only the first
      and the last page may be dropped. */
  function HandlePageRemoval(isl: Island, lruCounter: int, threshold: int, index: nat): (r: Result<Island>)
    requires index < |isl.pages|
    ensures isl.pages[index].lru > lruCounter - threshold ==> r == Success(isl)
    ensures isl.pages[index].lru <= lruCounter - threshold ==>
      (r.Success? <==> (index == 0 || index == |isl.pages| - 1))
    ensures r.Failure? ==> r.error == NotBoundaryPage
    // Removing a page leaves every other page at its own index.
    ensures isl.pages[index].lru <= lruCounter - threshold && r.Success? ==>
      && |r.value.pages| == |isl.pages| - 1
      && forall q :: PageAt(r.value, q) == (if q == isl.base + index then None else PageAt(isl, q))
  {
    if isl.pages[index].lru <= lruCounter - threshold then
      if index == 0 then
        Success(Island(isl.base + 1, seq(|isl.pages| - 1, i requires 0 <= i < |isl.pages| - 1 => isl.pages[i + 1])))
      else if index == |isl.pages| - 1 then
        Success(isl.(pages := seq(index, i requires 0 <= i < index => isl.pages[i])))
      else
        Failure(NotBoundaryPage)
    else
      Success(isl)
  }

  /** LRU pass over one island at counter value lruCounter. Returns the new
      island and whether it is now empty (and should be dropped). */
  function UpdateLRU(isl: Island, lruCounter: int, threshold: int): (r: (Island, bool))
    ensures r.1 <==> |r.0.pages| == 0
    // Negative counter: nothing is evicted, every page is restamped.
    ensures lruCounter < 0 ==> r.0.base == isl.base && |r.0.pages| == |isl.pages|
    ensures lruCounter < 0 ==> forall q :: Covers(isl, q) ==>
      PageAt(r.0, q) == Some(Page(lruCounter, PageAt(isl, q).value.load))
    // Otherwise survivors stay where they were, unchanged ...
    ensures lruCounter >= 0 ==> forall q :: Covers(r.0, q) ==> PageAt(r.0, q) == PageAt(isl, q)
    // ... and only stale boundary pages disappear.
    ensures lruCounter >= 0 ==> forall q :: Covers(isl, q) && !Covers(r.0, q) ==>
      (q == isl.base || q == Top(isl)) && PageAt(isl, q).value.lru <= lruCounter - threshold
    ensures lruCounter >= 0 && |isl.pages| > 0 ==>
      (Covers(r.0, isl.base) <==> isl.pages[0].lru > lruCounter - threshold)
    ensures lruCounter >= 0 && |isl.pages| > 2 ==>
      (Covers(r.0, Top(isl)) <==> isl.pages[|isl.pages| - 1].lru > lruCounter - threshold)
    // With two pages, a dropped first page shields the last one for this pass.
    ensures lruCounter >= 0 && |isl.pages| == 2 ==>
      (Covers(r.0, Top(isl)) <==>
        (isl.pages[1].lru > lruCounter - threshold || isl.pages[0].lru <= lruCounter - threshold))
  {
    if lruCounter < 0 then
      var reset := ResetLRU(isl, lruCounter);
      (reset, |reset.pages| == 0)
    else if |isl.pages| >= 1 then
      var afterFront := HandlePageRemoval(isl, lruCounter, threshold, 0).value;
      var afterBack :=
        if |afterFront.pages| > 1 then
          HandlePageRemoval(afterFront, lruCounter, threshold, |afterFront.pages| - 1).value
        else
          afterFront;
      (afterBack, |afterBack.pages| == 0)
    else
      (isl, true)
  }

  /** Single load per page within an island: once a lookup of p has
      succeeded, looking p up again never calls the loader and yields the
      page holding the same load. */
  lemma GetPageLoadsOnce(isl: Island, p: int, lru1: int, lru2: int, create1: bool, create2: bool, next1: nat, next2: nat)
    requires GetPage(isl, p, lru1, create1, next1).Success?
    ensures var first := GetPage(isl, p, lru1, create1, next1).value;
            var second := GetPage(first.island, p, lru2, create2, next2);
            && second.Success?
            && !second.value.loaded
            && second.value.page == Page(lru2, first.page.load)
  {
  }

  /** A lookup keeps every page tied to a load of its own index, the
      created page being tied to the loader call appended for it. */
  lemma GetPageKeepsLoads(isl: Island, loads: seq<LoadCall>, p: int, lru: int, createMissing: bool, pageSize: int)
    requires PagesMatchLoads(isl, loads)
    requires GetPage(isl, p, lru, createMissing, |loads|).Success?
    ensures var hit := GetPage(isl, p, lru, createMissing, |loads|).value;
            PagesMatchLoads(hit.island, if hit.loaded then loads + [LoadCall(p, pageSize)] else loads)
  {
  }

  /** A lookup stamped below the counter keeps all pages touched before it. */
  lemma GetPageKeepsTouchedBefore(isl: Island, p: int, lru: int, createMissing: bool, nextLoad: nat, counter: int)
    requires TouchedBefore(isl, counter) && lru < counter
    requires GetPage(isl, p, lru, createMissing, nextLoad).Success?
    ensures TouchedBefore(GetPage(isl, p, lru, createMissing, nextLoad).value.island, counter)
  {
  }

  /** The LRU pass keeps both page invariants (the negative-counter restamp
      only when it stays below the counter bound). */
  lemma UpdateLRUKeepsInvariants(isl: Island, loads: seq<LoadCall>, lruCounter: int, threshold: int, counter: int)
    requires PagesMatchLoads(isl, loads) && TouchedBefore(isl, counter)
    requires lruCounter < 0 ==> lruCounter < counter
    ensures PagesMatchLoads(UpdateLRU(isl, lruCounter, threshold).0, loads)
    ensures TouchedBefore(UpdateLRU(isl, lruCounter, threshold).0, counter)
  {
  }

  /** Merging two islands keeps both page invariants. */
  lemma AppendKeepsInvariants(isl: Island, other: Island, loads: seq<LoadCall>, counter: int)
    requires PagesMatchLoads(isl, loads) && PagesMatchLoads(other, loads)
    requires TouchedBefore(isl, counter) && TouchedBefore(other, counter)
    requires Append(isl, other).Success?
    ensures PagesMatchLoads(Append(isl, other).value, loads)
    ensures TouchedBefore(Append(isl, other).value, counter)
  {
  }
}
