/** The page cache: a list of islands, a global access counter and the log
    of item-loader calls. All bookkeeping of one request happens before the
    loader's answer is awaited, so each request is a pure state transition. */
module PageCache {
  import opened PagrxTypes
  import opened Islands

  datatype Cache = Cache(islands: seq<Island>, counter: int, loads: seq<LoadCall>)

  /** A freshly constructed cache: no islands, counter at zero, no loads. */
  const Empty: Cache := Cache([], 0, [])

  /** Where an item lives: its page index and its offset inside that page. */
  datatype Location = Location(page: int, local: int)

  /** The page holding an item and the item's offset in it (floor division). */
  function ItemToLocation(item: int, pageSize: int): (l: Location)
    requires pageSize > 0
    ensures 0 <= l.local < pageSize
    ensures item == l.page * pageSize + l.local
  {
    // For a positive divisor Dafny's division rounds down, as Math.floor does.
    var page := item / pageSize;
    Location(page, item - page * pageSize)
  }

  /** Position of the first island that holds or touches page p. */
  function FindIsland(islands: seq<Island>, p: int): (r: Option<nat>)
    ensures r.Some? ==> r.value < |islands| && ContainsPage(islands[r.value], p, true)
    ensures r.Some? ==> forall k :: 0 <= k < r.value ==> !ContainsPage(islands[k], p, true)
    ensures r.None? ==> forall k :: 0 <= k < |islands| ==> !ContainsPage(islands[k], p, true)
  {
    FindIslandFrom(islands, p, 0)
  }

  /** The scan behind FindIsland, starting at position from. */
  function FindIslandFrom(islands: seq<Island>, p: int, from: nat): (r: Option<nat>)
    requires from <= |islands|
    ensures r.Some? ==> from <= r.value < |islands| && ContainsPage(islands[r.value], p, true)
    ensures r.Some? ==> forall k :: from <= k < r.value ==> !ContainsPage(islands[k], p, true)
    ensures r.None? ==> forall k :: from <= k < |islands| ==> !ContainsPage(islands[k], p, true)
    decreases |islands| - from
  {
    if from == |islands| then None
    else if ContainsPage(islands[from], p, true) then Some(from)
    else FindIslandFrom(islands, p, from + 1)
  }

  /** Picks the island that serves page p: the first one holding or touching
      it; otherwise a new empty island based at p is appended, unless
      islands are disabled and some island exists. Returns the island list
      and the chosen position. */
  function GetIsland(islands: seq<Island>, p: int, allowIslands: bool): (r: Result<(seq<Island>, nat)>)
    ensures r.Failure? <==>
      && (forall k :: 0 <= k < |islands| ==> !ContainsPage(islands[k], p, true))
      && |islands| >= 1 && !allowIslands
    ensures r.Failure? ==> r.error == AllowIslandsDisabled
    ensures r.Success? ==> r.value.1 < |r.value.0| && ContainsPage(r.value.0[r.value.1], p, true)
    // An existing island is reused only if it is the first to touch p ...
    ensures r.Success? && r.value.1 < |islands| ==>
      && r.value.0 == islands
      && forall k :: 0 <= k < r.value.1 ==> !ContainsPage(islands[k], p, true)
    // ... and a new island is opened only if none touches p.
    ensures r.Success? && r.value.1 >= |islands| ==>
      && r.value.1 == |islands|
      && r.value.0 == islands + [Island(p, [])]
      && forall k :: 0 <= k < |islands| ==> !ContainsPage(islands[k], p, true)
  {
    match FindIsland(islands, p)
    case Some(k) => Success((islands, k))
    case None =>
      if |islands| >= 1 && !allowIslands then
        Failure(AllowIslandsDisabled)
      else
        Success((islands + [Island(p, [])], |islands|))
  }

  /** The first n islands of the list. */
  function Prefix(islands: seq<Island>, n: nat): (r: seq<Island>)
    requires n <= |islands|
    ensures |r| == n
    ensures forall i :: 0 <= i < n ==> r[i] == islands[i]
  {
    seq(n, i requires 0 <= i < n => islands[i])
  }

  /** The LRU pass of the cache: every island is updated at the given
      counter and the islands that became empty are dropped. */
  function UpdateAllLRU(islands: seq<Island>, lruCounter: int, threshold: int): (r: seq<Island>)
    ensures |r| <= |islands|
    ensures forall i :: 0 <= i < |r| ==> |r[i].pages| > 0
    decreases |islands|
  {
    if |islands| == 0 then
      []
    else
      var n := |islands| - 1;
      var updated := UpdateLRU(islands[n], lruCounter, threshold);
      UpdateAllLRU(Prefix(islands, n), lruCounter, threshold) + (if updated.1 then [] else [updated.0])
  }

  /** Reference for the LRU pass: the positions, in increasing order, of
      exactly the islands the pass does not empty. */
  function Survivors(islands: seq<Island>, lruCounter: int, threshold: int): (idx: seq<nat>)
    ensures forall i :: 0 <= i < |idx| ==> idx[i] < |islands| && !UpdateLRU(islands[idx[i]], lruCounter, threshold).1
    ensures forall i, j :: 0 <= i < j < |idx| ==> idx[i] < idx[j]
    ensures forall j :: 0 <= j < |islands| && !UpdateLRU(islands[j], lruCounter, threshold).1 ==> j in idx
    decreases |islands|
  {
    if |islands| == 0 then
      []
    else
      var n := |islands| - 1;
      Survivors(Prefix(islands, n), lruCounter, threshold)
      + (if UpdateLRU(islands[n], lruCounter, threshold).1 then [] else [n])
  }

  /** Position of the first island whose base is b (the merge candidate). */
  function FindByBase(islands: seq<Island>, b: int): (r: Option<nat>)
    ensures r.Some? ==> r.value < |islands| && islands[r.value].base == b
    ensures r.Some? ==> forall k :: 0 <= k < r.value ==> islands[k].base != b
    ensures r.None? ==> forall k :: 0 <= k < |islands| ==> islands[k].base != b
  {
    FindByBaseFrom(islands, b, 0)
  }

  /** The scan behind FindByBase, starting at position from. */
  function FindByBaseFrom(islands: seq<Island>, b: int, from: nat): (r: Option<nat>)
    requires from <= |islands|
    ensures r.Some? ==> from <= r.value < |islands| && islands[r.value].base == b
    ensures r.Some? ==> forall k :: from <= k < r.value ==> islands[k].base != b
    ensures r.None? ==> forall k :: from <= k < |islands| ==> islands[k].base != b
    decreases |islands| - from
  {
    if from == |islands| then None
    else if islands[from].base == b then Some(from)
    else FindByBaseFrom(islands, b, from + 1)
  }

  /** The list without its element at position m. */
  function Remove(islands: seq<Island>, m: nat): (r: seq<Island>)
    requires m < |islands|
    ensures |r| == |islands| - 1
    ensures forall j :: 0 <= j < |islands| && j != m ==> r[if j < m then j else j - 1] == islands[j]
  {
    seq(|islands| - 1, i requires 0 <= i < |islands| - 1 => if i < m then islands[i] else islands[i + 1])
  }

  /** Forward merge after a request: if an island starts right after the
      touched island's last page, it is appended to the touched island and
      removed from the list. pos is the touched island's position in the
      list, or None when the LRU pass has already dropped it (the merge then
      goes into the dropped island and the candidate is lost with it). */
  function OptimizeIslands(islands: seq<Island>, touched: Island, pos: Option<nat>): (r: seq<Island>)
    requires pos.Some? ==> pos.value < |islands| && islands[pos.value] == touched
    ensures FindByBase(islands, touched.base + |touched.pages|).None? ==> r == islands
    ensures FindByBase(islands, touched.base + |touched.pages|).Some? ==>
      var m := FindByBase(islands, touched.base + |touched.pages|).value;
      && |r| == |islands| - 1
      // every island other than the candidate and the touched one keeps its relative place
      && (forall j :: 0 <= j < |islands| && j != m && pos != Some(j) ==>
            r[if j < m then j else j - 1] == islands[j])
      // the touched island, if still listed, now serves the candidate's pages too
      && (pos.Some? && pos.value != m ==>
            var at := if pos.value < m then pos.value else pos.value - 1;
            && r[at].base == touched.base
            && |r[at].pages| == |touched.pages| + |islands[m].pages|
            && forall q :: PageAt(r[at], q) == (if Covers(touched, q) then PageAt(touched, q) else PageAt(islands[m], q)))
    ensures forall i :: 0 <= i < |r| ==>
      r[i] in islands
      || (FindByBase(islands, touched.base + |touched.pages|).Some? &&
          r[i] == Append(touched, islands[FindByBase(islands, touched.base + |touched.pages|).value]).value)
  {
    match FindByBase(islands, touched.base + |touched.pages|)
    case None => islands
    case Some(m) =>
      MergeAt(islands, pos, m, Append(touched, islands[m]).value)
  }

  /** The list with the merged island stored at pos (when given) and the
      element at position m removed. */
  function MergeAt(islands: seq<Island>, pos: Option<nat>, m: nat, merged: Island): (r: seq<Island>)
    requires m < |islands| && (pos.Some? ==> pos.value < |islands|)
    ensures |r| == |islands| - 1
    ensures forall j :: 0 <= j < |islands| && j != m && pos != Some(j) ==> r[if j < m then j else j - 1] == islands[j]
    ensures pos.Some? && pos.value != m ==> r[if pos.value < m then pos.value else pos.value - 1] == merged
    ensures forall i :: 0 <= i < |r| ==> r[i] in islands || r[i] == merged
  {
    var updated := if pos.Some? then islands[pos.value := merged] else islands;
    var r := Remove(updated, m);
    assert forall j :: 0 <= j < |islands| && j != m && pos != Some(j) ==> updated[j] == islands[j];
    assert forall i :: 0 <= i < |r| ==> r[i] in updated;
    r
  }

  /** The LRU pass distributes over concatenation of island lists. */
  lemma {:induction false} UpdateAllLRUConcat(a: seq<Island>, b: seq<Island>, lruCounter: int, threshold: int)
    ensures UpdateAllLRU(a + b, lruCounter, threshold)
         == UpdateAllLRU(a, lruCounter, threshold) + UpdateAllLRU(b, lruCounter, threshold)
    decreases |b|
  {
    if |b| == 0 {
      assert a + b == a;
    } else {
      var n := |b| - 1;
      assert Prefix(a + b, |a + b| - 1) == a + Prefix(b, n);
      assert (a + b)[|a + b| - 1] == b[n];
      UpdateAllLRUConcat(a, Prefix(b, n), lruCounter, threshold);
    }
  }

  /** The LRU pass and its reference agree on a list of islands: the pass keeps
      exactly the surviving islands, in their order, and its i-th island is
      the update of the i-th surviving position. */
  ghost predicate SurvivorsAgree(islands: seq<Island>, lruCounter: int, threshold: int)
  {
    && |UpdateAllLRU(islands, lruCounter, threshold)| == |Survivors(islands, lruCounter, threshold)|
    && forall i :: 0 <= i < |Survivors(islands, lruCounter, threshold)| ==>
         UpdateAllLRU(islands, lruCounter, threshold)[i]
           == UpdateLRU(islands[Survivors(islands, lruCounter, threshold)[i]], lruCounter, threshold).0
  }

  /** The LRU pass keeps exactly the surviving islands, in their order:
      its i-th island is the update of the i-th surviving position. */
  lemma {:induction false} UpdateAllLRUIsSurvivors(islands: seq<Island>, lruCounter: int, threshold: int)
    ensures SurvivorsAgree(islands, lruCounter, threshold)
    decreases |islands|
  {
    if |islands| > 0 {
      var n := |islands| - 1;
      var init := Prefix(islands, n);
      UpdateAllLRUIsSurvivors(init, lruCounter, threshold);
      LastStep(islands, lruCounter, threshold);
    }
  }

  /** One step of the LRU pass and of its reference: both extend their
      results on the prefix by the last island, or by nothing. */
  lemma LastStep(islands: seq<Island>, lruCounter: int, threshold: int)
    requires |islands| > 0
    requires SurvivorsAgree(Prefix(islands, |islands| - 1), lruCounter, threshold)
    ensures SurvivorsAgree(islands, lruCounter, threshold)
  {
    var n := |islands| - 1;
    var init := Prefix(islands, n);
    var done := UpdateAllLRU(init, lruCounter, threshold);
    var kept := Survivors(init, lruCounter, threshold);
    var last := UpdateLRU(islands[n], lruCounter, threshold);
    var r := UpdateAllLRU(islands, lruCounter, threshold);
    var idx := Survivors(islands, lruCounter, threshold);
    assert r == done + (if last.1 then [] else [last.0]);
    assert idx == kept + (if last.1 then [] else [n]);
    forall i | 0 <= i < |idx|
      ensures r[i] == UpdateLRU(islands[idx[i]], lruCounter, threshold).0
    {
      if i < |kept| {
        assert r[i] == done[i] && idx[i] == kept[i];
        assert islands[kept[i]] == init[kept[i]];
      }
    }
  }

  /** Where a surviving island lands after the LRU pass: after the
      survivors of the islands listed before it. */
  lemma UpdateAllLRUPosition(islands: seq<Island>, k: nat, lruCounter: int, threshold: int)
    requires k < |islands|
    ensures !UpdateLRU(islands[k], lruCounter, threshold).1 ==>
      && |UpdateAllLRU(Prefix(islands, k), lruCounter, threshold)| < |UpdateAllLRU(islands, lruCounter, threshold)|
      && UpdateAllLRU(islands, lruCounter, threshold)[|UpdateAllLRU(Prefix(islands, k), lruCounter, threshold)|]
         == UpdateLRU(islands[k], lruCounter, threshold).0
  {
    var rest := seq(|islands| - k - 1, i requires 0 <= i < |islands| - k - 1 => islands[k + 1 + i]);
    assert islands == Prefix(islands, k) + ([islands[k]] + rest);
    UpdateAllLRUConcat(Prefix(islands, k), [islands[k]] + rest, lruCounter, threshold);
    UpdateAllLRUConcat([islands[k]], rest, lruCounter, threshold);
    assert Prefix([islands[k]], 0) == [];
  }

  /** Every island left by settling is a survivor of the LRU pass or the
      serving island merged with one. */
  lemma SettleOrigin(islands: seq<Island>, k: nat, lruCounter: int, threshold: int)
    requires k < |islands|
    ensures var r := Settle(islands, k, lruCounter, threshold);
      forall i :: 0 <= i < |r| ==>
        r[i] in UpdateAllLRU(islands, lruCounter, threshold)
        || exists j :: 0 <= j < |UpdateAllLRU(islands, lruCounter, threshold)| &&
             Append(UpdateLRU(islands[k], lruCounter, threshold).0, UpdateAllLRU(islands, lruCounter, threshold)[j]).Success? &&
             r[i] == Append(UpdateLRU(islands[k], lruCounter, threshold).0, UpdateAllLRU(islands, lruCounter, threshold)[j]).value
  {
    UpdateAllLRUPosition(islands, k, lruCounter, threshold);
  }

  /** Both page invariants hold for every listed island. */
  ghost predicate IslandsWellFormed(islands: seq<Island>, loads: seq<LoadCall>, counter: int) {
    forall j :: 0 <= j < |islands| ==> PagesMatchLoads(islands[j], loads) && TouchedBefore(islands[j], counter)
  }

  /** The LRU pass over the whole list keeps both page invariants. */
  lemma UpdateAllLRUKeepsWellFormed(islands: seq<Island>, loads: seq<LoadCall>, lruCounter: int, threshold: int, counter: int)
    requires IslandsWellFormed(islands, loads, counter)
    requires lruCounter < 0 ==> lruCounter < counter
    ensures IslandsWellFormed(UpdateAllLRU(islands, lruCounter, threshold), loads, counter)
  {
    UpdateAllLRUIsSurvivors(islands, lruCounter, threshold);
    var idx := Survivors(islands, lruCounter, threshold);
    forall i | 0 <= i < |idx|
      ensures PagesMatchLoads(UpdateAllLRU(islands, lruCounter, threshold)[i], loads)
      ensures TouchedBefore(UpdateAllLRU(islands, lruCounter, threshold)[i], counter)
    {
      UpdateLRUKeepsInvariants(islands[idx[i]], loads, lruCounter, threshold, counter);
    }
  }

  /** The state after the page of a request has been fetched: the island
      list with the serving island updated, its position, the lookup result
      and the item's location. */
  datatype Served = Served(islands: seq<Island>, k: nat, hit: PageHit, loc: Location)

  /** First half of a request: locate the page, pick or open the island and
      fetch the page, stamping it with counter value lru. */
  function ServePage(islands: seq<Island>, opts: Options, item: int, lru: int, nextLoad: nat): (r: Result<Served>)
    requires ValidOptions(opts)
    ensures r.Failure? <==>
      && !opts.allowIslands && |islands| >= 1
      && forall j :: 0 <= j < |islands| ==> !ContainsPage(islands[j], ItemToLocation(item, opts.pageSize).page, true)
    ensures r.Failure? ==> r.error == AllowIslandsDisabled
    ensures r.Success? ==>
      && r.value.loc == ItemToLocation(item, opts.pageSize)
      && r.value.k < |r.value.islands|
      && r.value.islands[r.value.k] == r.value.hit.island
      && PageAt(r.value.hit.island, r.value.loc.page) == Some(r.value.hit.page)
      && r.value.hit.page.lru == lru
      && (r.value.hit.loaded ==> r.value.hit.page.load == nextLoad)
    // The serving island is the first listed one touching the page, or a new one.
    ensures r.Success? && r.value.k < |islands| ==>
      && ContainsPage(islands[r.value.k], r.value.loc.page, true)
      && forall i :: 0 <= i < r.value.k ==> !ContainsPage(islands[i], r.value.loc.page, true)
    ensures r.Success? && r.value.k >= |islands| ==>
      forall i :: 0 <= i < |islands| ==> !ContainsPage(islands[i], r.value.loc.page, true)
    // A loaded page was not held by the serving island, a hit page was.
    ensures r.Success? && r.value.k < |islands| ==>
      (r.value.hit.loaded <==> !Covers(islands[r.value.k], r.value.loc.page))
    ensures r.Success? && r.value.k >= |islands| ==> r.value.hit.loaded
    // Only the serving island changes; a new island is appended at the end.
    ensures r.Success? ==>
      && |islands| <= |r.value.islands| <= |islands| + 1
      && forall j :: 0 <= j < |islands| && j != r.value.k ==> r.value.islands[j] == islands[j]
  {
    var loc := ItemToLocation(item, opts.pageSize);
    match GetIsland(islands, loc.page, opts.allowIslands)
    case Failure(e) => Failure(e)
    case Success((listed, k)) =>
      var hit := GetPage(listed[k], loc.page, lru, true, nextLoad).value;
      assert hit.loaded ==> !Covers(listed[k], loc.page);
      Success(Served(listed[k := hit.island], k, hit, loc))
  }

  /** Inside the serving island only the served page changes: the island
      grows by exactly the loaded page, at the end that page lies on. A new
      island starts out empty at the page. */
  lemma ServePageFrame(islands: seq<Island>, opts: Options, item: int, lru: int, nextLoad: nat)
    requires ValidOptions(opts)
    ensures var r := ServePage(islands, opts, item, lru, nextLoad);
      r.Success? ==>
        var before := if r.value.k < |islands| then islands[r.value.k] else Island(r.value.loc.page, []);
        && (forall q :: q != r.value.loc.page ==> PageAt(r.value.hit.island, q) == PageAt(before, q))
        && |r.value.hit.island.pages| == |before.pages| + (if r.value.hit.loaded then 1 else 0)
        && r.value.hit.island.base
           == (if |before.pages| == 0 || r.value.loc.page < before.base then r.value.loc.page else before.base)
  {
  }

  /** Second half of a request, at the incremented counter: the LRU pass
      over all islands, then the forward merge of the serving island at
      position k. */
  function Settle(islands: seq<Island>, k: nat, lruCounter: int, threshold: int): (r: seq<Island>)
    requires k < |islands|
    ensures forall i :: 0 <= i < |r| ==> |r[i].pages| > 0
  {
    var kept := UpdateAllLRU(islands, lruCounter, threshold);
    var after := UpdateLRU(islands[k], lruCounter, threshold);
    OptimizeIslands(kept, after.0, TouchedPosition(islands, k, lruCounter, threshold))
  }

  /** Where the touched island stands after the LRU pass, or None when the
      pass emptied it. */
  function TouchedPosition(islands: seq<Island>, k: nat, lruCounter: int, threshold: int): (pos: Option<nat>)
    requires k < |islands|
    ensures pos.None? <==> UpdateLRU(islands[k], lruCounter, threshold).1
    ensures pos.Some? ==>
      && pos.value < |UpdateAllLRU(islands, lruCounter, threshold)|
      && UpdateAllLRU(islands, lruCounter, threshold)[pos.value] == UpdateLRU(islands[k], lruCounter, threshold).0
  {
    UpdateAllLRUPosition(islands, k, lruCounter, threshold);
    if UpdateLRU(islands[k], lruCounter, threshold).1 then None
    else Some(|UpdateAllLRU(Prefix(islands, k), lruCounter, threshold)|)
  }

  /** Settling keeps every other survivor of the LRU pass, in order.
      Without an island starting right after the touched one, the list is
      the pass's result. With one, that island is removed, the touched
      island (when it survived) is replaced by the merge, and every other
      survivor keeps its relative place. */
  lemma SettleKeepsOthers(islands: seq<Island>, k: nat, lruCounter: int, threshold: int)
    requires k < |islands|
    ensures var kept := UpdateAllLRU(islands, lruCounter, threshold);
      var after := UpdateLRU(islands[k], lruCounter, threshold).0;
      KeepsOthers(kept, after, TouchedPosition(islands, k, lruCounter, threshold), Settle(islands, k, lruCounter, threshold))
  {
    var kept := UpdateAllLRU(islands, lruCounter, threshold);
    var after := UpdateLRU(islands[k], lruCounter, threshold);
    var pos := TouchedPosition(islands, k, lruCounter, threshold);
    assert Settle(islands, k, lruCounter, threshold) == OptimizeIslands(kept, after.0, pos);
    OptimizeKeepsOthers(kept, after.0, pos);
  }

  /** The forward merge of touched (listed at pos, when given) keeps every
      other island of the list, in order. Without a candidate starting
      right after touched, r is the list itself. With one, r is one island
      shorter, the candidate is gone, touched is replaced by the merge, and
      every other island keeps its relative place. */
  ghost predicate KeepsOthers(islands: seq<Island>, touched: Island, pos: Option<nat>, r: seq<Island>) {
    var cand := FindByBase(islands, touched.base + |touched.pages|);
    && (cand.None? ==> r == islands)
    && (cand.Some? ==>
          && |r| == |islands| - 1
          && (forall j :: 0 <= j < |islands| && j != cand.value && pos != Some(j) ==>
                r[if j < cand.value then j else j - 1] == islands[j])
          && (pos.Some? ==>
                && pos.value < |islands| && pos.value != cand.value
                && r[if pos.value < cand.value then pos.value else pos.value - 1] == Append(touched, islands[cand.value]).value))
  }

  /** OptimizeIslands keeps every island it does not merge. */
  lemma OptimizeKeepsOthers(islands: seq<Island>, touched: Island, pos: Option<nat>)
    requires pos.Some? ==> pos.value < |islands| && islands[pos.value] == touched && |touched.pages| > 0
    ensures KeepsOthers(islands, touched, pos, OptimizeIslands(islands, touched, pos))
  {
  }

  /** The outcome of one item request: the new cache state and either the
      location served or the failure. */
  datatype Access = Access(item: int, page: int, local: int, load: nat)
  datatype GetOutcome = GetOutcome(cache: Cache, result: Result<Access>)

  /** The synchronous part of PagRX.get: locate the page, pick or open the
      island, fetch the page with the pre-increment counter, run the LRU
      pass at the incremented counter and merge the touched island forward.
      The access names the loader call whose result holds the item. */
  function Get(c: Cache, opts: Options, item: int): (r: GetOutcome)
    requires ValidOptions(opts)
    // It fails only when islands are disabled and no island holds or touches the page.
    ensures r.result.Failure? <==>
      && !opts.allowIslands && |c.islands| >= 1
      && forall j :: 0 <= j < |c.islands| ==>
           !ContainsPage(c.islands[j], ItemToLocation(item, opts.pageSize).page, true)
    ensures r.result.Failure? ==> r.cache == c && r.result.error == AllowIslandsDisabled
    ensures r.result.Success? ==>
      && r.result.value.item == item
      && Location(r.result.value.page, r.result.value.local) == ItemToLocation(item, opts.pageSize)
    ensures r.result.Success? ==> r.cache.counter == c.counter + 1
    // At most one loader call, for the item's page with the configured page size ...
    ensures r.result.Success? ==>
      || r.cache.loads == c.loads
      || (&& r.cache.loads == c.loads + [LoadCall(r.result.value.page, opts.pageSize)]
          && r.result.value.load == |c.loads|)
  {
    match ServePage(c.islands, opts, item, c.counter, |c.loads|)
    case Failure(e) => GetOutcome(c, Failure(e))
    case Success(s) => Settled(c, opts, item, s)
  }

  /** Second half of a successful request: log the loader call if the page
      was loaded, advance the counter and settle the islands at it. */
  function Settled(c: Cache, opts: Options, item: int, s: Served): (r: GetOutcome)
    requires s.k < |s.islands|
  {
    var loads := if s.hit.loaded then c.loads + [LoadCall(s.loc.page, opts.pageSize)] else c.loads;
    var counter := c.counter + 1;
    var islands := Settle(s.islands, s.k, counter, opts.pagesLRUThreshold);
    GetOutcome(Cache(islands, counter, loads), Success(Access(item, s.loc.page, s.loc.local, s.hit.page.load)))
  }

  /** Cache invariant of every reachable state: the counter is not
      negative, every listed island is non-empty, every page holds a load
      of its own index and was touched before the counter, and every load
      asked for the configured page size. */
  ghost predicate Inv(c: Cache, opts: Options) {
    && c.counter >= 0
    && (forall j :: 0 <= j < |c.islands| ==> |c.islands[j].pages| > 0)
    && IslandsWellFormed(c.islands, c.loads, c.counter)
    && forall n :: 0 <= n < |c.loads| ==> c.loads[n].pageSize == opts.pageSize
  }

  /** A freshly constructed cache satisfies the invariant. */
  lemma EmptyInv(opts: Options)
    ensures Inv(Empty, opts)
  {
  }

  /** Serving a page keeps the page invariants, against the loader log
      extended by the call made for a missing page. */
  lemma ServePageKeepsWellFormed(islands: seq<Island>, opts: Options, item: int, lru: int, loads: seq<LoadCall>, s: Served)
    requires ValidOptions(opts)
    requires IslandsWellFormed(islands, loads, lru)
    requires ServePage(islands, opts, item, lru, |loads|) == Success(s)
    ensures IslandsWellFormed(s.islands, if s.hit.loaded then loads + [LoadCall(s.loc.page, opts.pageSize)] else loads, lru + 1)
  {
    var loc := ItemToLocation(item, opts.pageSize);
    var (listed, k) := GetIsland(islands, loc.page, opts.allowIslands).value;
    var hit := GetPage(listed[k], loc.page, lru, true, |loads|).value;
    var loads' := if hit.loaded then loads + [LoadCall(loc.page, opts.pageSize)] else loads;
    assert IslandsWellFormed(listed, loads, lru);
    GetPageKeepsLoads(listed[k], loads, loc.page, lru, true, opts.pageSize);
    GetPageKeepsTouchedBefore(listed[k], loc.page, lru, true, |loads|, lru + 1);
    var updated := listed[k := hit.island];
    forall j | 0 <= j < |updated|
      ensures PagesMatchLoads(updated[j], loads')
      ensures TouchedBefore(updated[j], lru + 1)
    {
      if j != k {
        assert PagesMatchLoads(listed[j], loads);
      }
    }
  }

  /** Settling (LRU pass and merge) keeps the page invariants. */
  lemma SettleKeepsWellFormed(islands: seq<Island>, k: nat, lruCounter: int, threshold: int, loads: seq<LoadCall>, counter: int)
    requires k < |islands| && lruCounter >= 0
    requires IslandsWellFormed(islands, loads, counter)
    ensures IslandsWellFormed(Settle(islands, k, lruCounter, threshold), loads, counter)
  {
    var kept := UpdateAllLRU(islands, lruCounter, threshold);
    var after := UpdateLRU(islands[k], lruCounter, threshold).0;
    UpdateAllLRUKeepsWellFormed(islands, loads, lruCounter, threshold, counter);
    UpdateLRUKeepsInvariants(islands[k], loads, lruCounter, threshold, counter);
    SettleOrigin(islands, k, lruCounter, threshold);
    var r := Settle(islands, k, lruCounter, threshold);
    forall i | 0 <= i < |r|
      ensures PagesMatchLoads(r[i], loads) && TouchedBefore(r[i], counter)
    {
      if r[i] !in kept {
        var j :| 0 <= j < |kept| && Append(after, kept[j]).Success? && r[i] == Append(after, kept[j]).value;
        AppendKeepsInvariants(after, kept[j], loads, counter);
      }
    }
  }

  /** Settling a well-formed island list yields a state satisfying the invariant. */
  lemma SettleKeepsInv(islands: seq<Island>, k: nat, counter: int, opts: Options, loads: seq<LoadCall>)
    requires k < |islands| && counter >= 0
    requires IslandsWellFormed(islands, loads, counter)
    requires forall n :: 0 <= n < |loads| ==> loads[n].pageSize == opts.pageSize
    ensures Inv(Cache(Settle(islands, k, counter, opts.pagesLRUThreshold), counter, loads), opts)
  {
    SettleKeepsWellFormed(islands, k, counter, opts.pagesLRUThreshold, loads, counter);
  }

  /** A successful request is its served half followed by settling. */
  lemma GetUnfold(c: Cache, opts: Options, item: int, s: Served)
    requires ValidOptions(opts)
    requires ServePage(c.islands, opts, item, c.counter, |c.loads|) == Success(s)
    ensures Get(c, opts, item) == GetOutcome(
      Cache(Settle(s.islands, s.k, c.counter + 1, opts.pagesLRUThreshold), c.counter + 1,
            if s.hit.loaded then c.loads + [LoadCall(s.loc.page, opts.pageSize)] else c.loads),
      Success(Access(item, s.loc.page, s.loc.local, s.hit.page.load)))
  {
    GetIsSettled(c, opts, item, s);
    SettledUnfold(c, opts, item, s);
  }

  /** A successful request is its settled second half. */
  lemma GetIsSettled(c: Cache, opts: Options, item: int, s: Served)
    requires ValidOptions(opts)
    requires ServePage(c.islands, opts, item, c.counter, |c.loads|) == Success(s)
    ensures Get(c, opts, item) == Settled(c, opts, item, s)
  {
  }

  /** The settled second half, written out. */
  lemma SettledUnfold(c: Cache, opts: Options, item: int, s: Served)
    requires s.k < |s.islands|
    ensures Settled(c, opts, item, s) == GetOutcome(
      Cache(Settle(s.islands, s.k, c.counter + 1, opts.pagesLRUThreshold), c.counter + 1,
            if s.hit.loaded then c.loads + [LoadCall(s.loc.page, opts.pageSize)] else c.loads),
      Success(Access(item, s.loc.page, s.loc.local, s.hit.page.load)))
  {
  }

  /** The state a successful request leaves satisfies the invariant, and
      the served page holds a load of its own page. */
  lemma ServedKeepsInv(c: Cache, opts: Options, item: int, s: Served)
    requires ValidOptions(opts) && Inv(c, opts)
    requires ServePage(c.islands, opts, item, c.counter, |c.loads|) == Success(s)
    ensures var loads := if s.hit.loaded then c.loads + [LoadCall(s.loc.page, opts.pageSize)] else c.loads;
      && Inv(Cache(Settle(s.islands, s.k, c.counter + 1, opts.pagesLRUThreshold), c.counter + 1, loads), opts)
      && s.hit.page.load < |loads|
      && loads[s.hit.page.load] == LoadCall(s.loc.page, opts.pageSize)
  {
    var loads := if s.hit.loaded then c.loads + [LoadCall(s.loc.page, opts.pageSize)] else c.loads;
    ServePageKeepsWellFormed(c.islands, opts, item, c.counter, c.loads, s);
    LoadsKeepPageSize(c.loads, opts, s.hit.loaded, s.loc.page);
    SettleKeepsInv(s.islands, s.k, c.counter + 1, opts, loads);
    ServedLoadMatches(c, opts, item, s);
  }

  /** Every load asks for the configured page size, also after one more. */
  lemma LoadsKeepPageSize(loads: seq<LoadCall>, opts: Options, loaded: bool, page: int)
    requires forall n :: 0 <= n < |loads| ==> loads[n].pageSize == opts.pageSize
    ensures var after := if loaded then loads + [LoadCall(page, opts.pageSize)] else loads;
      forall n :: 0 <= n < |after| ==> after[n].pageSize == opts.pageSize
  {
  }

  /** The served page holds the result of a loader call for its own page. */
  lemma ServedLoadMatches(c: Cache, opts: Options, item: int, s: Served)
    requires ValidOptions(opts) && Inv(c, opts)
    requires ServePage(c.islands, opts, item, c.counter, |c.loads|) == Success(s)
    ensures var loads := if s.hit.loaded then c.loads + [LoadCall(s.loc.page, opts.pageSize)] else c.loads;
      && s.hit.page.load < |loads|
      && loads[s.hit.page.load] == LoadCall(s.loc.page, opts.pageSize)
  {
    var loads := if s.hit.loaded then c.loads + [LoadCall(s.loc.page, opts.pageSize)] else c.loads;
    ServePageKeepsWellFormed(c.islands, opts, item, c.counter, c.loads, s);
    assert PagesMatchLoads(s.islands[s.k], loads);
    assert Covers(s.hit.island, s.loc.page);
  }

  /** Every request keeps the cache invariant, and a served item comes
      from a loader call made for its own page. */
  lemma GetKeepsInv(c: Cache, opts: Options, item: int)
    requires ValidOptions(opts) && Inv(c, opts)
    ensures Inv(Get(c, opts, item).cache, opts)
    ensures var r := Get(c, opts, item);
      r.result.Success? ==>
        && r.result.value.load < |r.cache.loads|
        && r.cache.loads[r.result.value.load] == LoadCall(r.result.value.page, opts.pageSize)
  {
    var served := ServePage(c.islands, opts, item, c.counter, |c.loads|);
    if served.Success? {
      GetUnfold(c, opts, item, served.value);
      ServedKeepsInv(c, opts, item, served.value);
    }
  }

  /** Single load at the cache level: a request calls the loader exactly
      when the first island holding or touching its page does not hold it. */
  lemma GetLoadsUnlessHeld(c: Cache, opts: Options, item: int)
    requires ValidOptions(opts)
    requires Get(c, opts, item).result.Success?
    ensures var r := Get(c, opts, item);
      (r.cache.loads == c.loads <==>
        exists j :: && 0 <= j < |c.islands|
                    && Covers(c.islands[j], r.result.value.page)
                    && forall i :: 0 <= i < j ==> !ContainsPage(c.islands[i], r.result.value.page, true))
  {
    var s := ServePage(c.islands, opts, item, c.counter, |c.loads|).value;
    GetUnfold(c, opts, item, s);
    var p := s.loc.page;
    if s.hit.loaded {
      assert |Get(c, opts, item).cache.loads| == |c.loads| + 1;
      forall j | 0 <= j < |c.islands| && Covers(c.islands[j], p)
        ensures exists i :: 0 <= i < j && ContainsPage(c.islands[i], p, true)
      {
        if s.k < j {
          assert ContainsPage(c.islands[s.k], p, true);
        }
      }
    } else {
      assert Covers(c.islands[s.k], p);
    }
  }

  /** A request succeeds exactly when its page could be served. */
  lemma GetServed(c: Cache, opts: Options, item: int)
    requires ValidOptions(opts)
    ensures Get(c, opts, item).result.Success? <==> ServePage(c.islands, opts, item, c.counter, |c.loads|).Success?
  {
  }

  /** A page served by a successful request stays cached through the
      request's own LRU pass whenever the threshold exceeds one access: some
      island then holds it, stamped with the pre-increment counter. */
  lemma GetKeepsPageCached(c: Cache, opts: Options, item: int)
    requires ValidOptions(opts) && c.counter >= 0 && opts.pagesLRUThreshold > 1
    requires Get(c, opts, item).result.Success?
    ensures var r := Get(c, opts, item);
      exists j :: 0 <= j < |r.cache.islands| &&
        PageAt(r.cache.islands[j], r.result.value.page) == Some(Page(c.counter, r.result.value.load))
  {
    GetServed(c, opts, item);
    ServedPageCached(c, opts, item, ServePage(c.islands, opts, item, c.counter, |c.loads|).value);
  }

  /** GetKeepsPageCached for a given served state. */
  lemma ServedPageCached(c: Cache, opts: Options, item: int, s: Served)
    requires ValidOptions(opts) && c.counter >= 0 && opts.pagesLRUThreshold > 1
    requires ServePage(c.islands, opts, item, c.counter, |c.loads|) == Success(s)
    ensures var r := Get(c, opts, item);
      && r.result.Success?
      && r.result.value.page == s.loc.page
      && exists j :: 0 <= j < |r.cache.islands| && PageAt(r.cache.islands[j], s.loc.page) == Some(Page(c.counter, r.result.value.load))
  {
    var j := ServedKeepsPage(c.islands, opts, item, c.counter, |c.loads|, s);
    GetUnfold(c, opts, item, s);
  }

  /** The position, after settling, of the island holding the served page. */
  lemma ServedKeepsPage(islands: seq<Island>, opts: Options, item: int, counter: int, nextLoad: nat, s: Served)
    returns (j: nat)
    requires ValidOptions(opts) && counter >= 0 && opts.pagesLRUThreshold > 1
    requires ServePage(islands, opts, item, counter, nextLoad) == Success(s)
    ensures var settled := Settle(s.islands, s.k, counter + 1, opts.pagesLRUThreshold);
      j < |settled| && PageAt(settled[j], s.loc.page) == Some(Page(counter, s.hit.page.load))
  {
    SettleKeepsFreshPage(s.islands, s.k, counter + 1, opts.pagesLRUThreshold, s.loc.page);
    var settled := Settle(s.islands, s.k, counter + 1, opts.pagesLRUThreshold);
    j :| 0 <= j < |settled| && PageAt(settled[j], s.loc.page) == PageAt(s.islands[s.k], s.loc.page);
  }

  /** A page that is fresh in the touched island survives the LRU pass and
      the merge that follow, with the same stamp and load. */
  lemma SettleKeepsFreshPage(islands: seq<Island>, k: nat, lruCounter: int, threshold: int, p: int)
    requires k < |islands| && lruCounter >= 0
    requires Covers(islands[k], p) && PageAt(islands[k], p).value.lru > lruCounter - threshold
    ensures var r := Settle(islands, k, lruCounter, threshold);
      exists j :: 0 <= j < |r| && PageAt(r[j], p) == PageAt(islands[k], p)
  {
    var kept := UpdateAllLRU(islands, lruCounter, threshold);
    var after := UpdateLRU(islands[k], lruCounter, threshold);
    assert Covers(after.0, p);
    var at := TouchedPosition(islands, k, lruCounter, threshold).value;
    var r := Settle(islands, k, lruCounter, threshold);
    assert r == OptimizeIslands(kept, after.0, Some(at));
    match FindByBase(kept, after.0.base + |after.0.pages|)
    case None =>
      assert r[at] == after.0;
    case Some(m) =>
      assert m != at by { assert kept[m].base == after.0.base + |after.0.pages|; }
      var moved := if at < m then at else at - 1;
      assert PageAt(r[moved], p) == PageAt(after.0, p);
  }

  /** Clears every island; the access counter and the loader log stay. */
  function Reset(c: Cache): (r: Cache)
    ensures r.islands == [] && r.counter == c.counter && r.loads == c.loads
  {
    Cache([], c.counter, c.loads)
  }

  /** After a reset, any request succeeds and calls the loader again. */
  lemma ResetForcesReload(c: Cache, opts: Options, item: int)
    requires ValidOptions(opts)
    ensures var r := Get(Reset(c), opts, item);
      && r.result.Success?
      && r.cache.loads == c.loads + [LoadCall(r.result.value.page, opts.pageSize)]
      && r.result.value.load == |c.loads|
  {
    var s := ServePage([], opts, item, c.counter, |c.loads|).value;
    GetUnfold(Reset(c), opts, item, s);
  }

  /** A reset keeps the invariant. */
  lemma ResetKeepsInv(c: Cache, opts: Options)
    requires Inv(c, opts)
    ensures Inv(Reset(c), opts)
  {
  }

  /** Outcome of a run of requests: the cache after all of them and either
      every access in request order or the first failure. */
  datatype RunOutcome = RunOutcome(cache: Cache, result: Result<seq<Access>>)

  /** Prepends one request's result to the results of the requests after it. */
  function Prepend(first: Result<Access>, rest: Result<seq<Access>>): (r: Result<seq<Access>>)
    // The earlier request's failure wins; otherwise the later ones' failure.
    ensures first.Failure? ==> r == Failure(first.error)
    ensures first.Success? && rest.Failure? ==> r == Failure(rest.error)
    // On success the first access comes first and the rest follow in order.
    ensures first.Success? && rest.Success? ==>
      && r.Success? && |r.value| == |rest.value| + 1 && r.value[0] == first.value
      && forall i :: 0 < i < |r.value| ==> r.value[i] == rest.value[i - 1]
  {
    match (first, rest)
    case (Failure(e), _) => Failure(e)
    case (_, Failure(e)) => Failure(e)
    case (Success(a), Success(more)) => Success([a] + more)
  }

  /** Serving the first item and then the rest in order serves every item
      in order. */
  lemma PrependServes(items: seq<int>, opts: Options, first: Result<Access>, rest: Result<seq<Access>>)
    requires ValidOptions(opts) && |items| > 0
    requires first.Success? ==>
      && first.value.item == items[0]
      && Location(first.value.page, first.value.local) == ItemToLocation(items[0], opts.pageSize)
    requires rest.Success? ==>
      && |rest.value| == |items| - 1
      && forall i :: 0 <= i < |items| - 1 ==>
           && rest.value[i].item == items[1..][i]
           && Location(rest.value[i].page, rest.value[i].local) == ItemToLocation(items[1..][i], opts.pageSize)
    ensures Prepend(first, rest).Success? ==>
      && |Prepend(first, rest).value| == |items|
      && forall i :: 0 <= i < |items| ==>
           && Prepend(first, rest).value[i].item == items[i]
           && Location(Prepend(first, rest).value[i].page, Prepend(first, rest).value[i].local) == ItemToLocation(items[i], opts.pageSize)
  {
    if first.Success? && rest.Success? {
      forall i | 0 < i < |items|
        ensures rest.value[i - 1].item == items[i]
      {
        assert items[1..][i - 1] == items[i];
      }
    }
  }

  /** Appends one request's result to the results of the requests before it. */
  function Then(prev: Result<seq<Access>>, last: Result<Access>): (r: Result<seq<Access>>)
  {
    match (prev, last)
    case (Failure(e), _) => Failure(e)
    case (_, Failure(e)) => Failure(e)
    case (Success(done), Success(a)) => Success(done + [a])
  }

  /** Issues a request for each item in order. A failed request leaves the
      cache as it was and the later ones still run; the combined result is
      the failure of the earliest failed request. */
  function GetAll(c: Cache, opts: Options, items: seq<int>): (r: RunOutcome)
    requires ValidOptions(opts)
    ensures r.result.Success? ==>
      && |r.result.value| == |items|
      && forall i :: 0 <= i < |items| ==>
           && r.result.value[i].item == items[i]
           && Location(r.result.value[i].page, r.result.value[i].local) == ItemToLocation(items[i], opts.pageSize)
    ensures r.result.Failure? ==> r.result.error == AllowIslandsDisabled
    ensures opts.allowIslands ==> r.result.Success?
    ensures c.counter <= r.cache.counter <= c.counter + |items|
    // Every successful request advances the counter by one and a failed one
    // leaves it, so it moves by |items| exactly when all of them succeed.
    ensures r.result.Success? ==> r.cache.counter == c.counter + |items|
    ensures r.result.Failure? ==> r.cache.counter < c.counter + |items|
    // Loader calls are only ever appended, at most one per request.
    ensures c.loads <= r.cache.loads && |r.cache.loads| <= |c.loads| + |items|
    decreases |items|
  {
    if |items| == 0 then
      RunOutcome(c, Success([]))
    else
      var first := Get(c, opts, items[0]);
      var rest := GetAll(first.cache, opts, items[1..]);
      PrependServes(items, opts, first.result, rest.result);
      RunOutcome(rest.cache, Prepend(first.result, rest.result))
  }

  /** Running a list followed by one more item is the run of the list
      followed by a single request: requests are issued one by one, in order. */
  lemma {:induction false} GetAllSnoc(c: Cache, opts: Options, items: seq<int>, x: int)
    requires ValidOptions(opts)
    ensures var prev := GetAll(c, opts, items);
      var last := Get(prev.cache, opts, x);
      GetAll(c, opts, items + [x]) == RunOutcome(last.cache, Then(prev.result, last.result))
    decreases |items|
  {
    if |items| == 0 {
      assert items + [x] == [x];
      var last := Get(c, opts, x);
      assert [x][1..] == [];
      assert GetAll(last.cache, opts, []) == RunOutcome(last.cache, Success([]));
      if last.result.Success? {
        assert [last.result.value] + [] == [] + [last.result.value];
      }
    } else {
      var first := Get(c, opts, items[0]);
      assert (items + [x])[0] == items[0];
      assert (items + [x])[1..] == items[1..] + [x];
      var prevRest := GetAll(first.cache, opts, items[1..]);
      var last := Get(prevRest.cache, opts, x);
      GetAllSnoc(first.cache, opts, items[1..], x);
      assert GetAll(first.cache, opts, items[1..] + [x]) == RunOutcome(last.cache, Then(prevRest.result, last.result));
      assert GetAll(c, opts, items) == RunOutcome(prevRest.cache, Prepend(first.result, prevRest.result));
      PrependThen(first.result, prevRest.result, last.result);
    }
  }

  /** Collecting results front to back and back to front agree. */
  lemma PrependThen(first: Result<Access>, middle: Result<seq<Access>>, last: Result<Access>)
    ensures Prepend(first, Then(middle, last)) == Then(Prepend(first, middle), last)
  {
    if first.Success? && middle.Success? && last.Success? {
      assert [first.value] + (middle.value + [last.value]) == ([first.value] + middle.value) + [last.value];
    }
  }

  /** A run of requests keeps the invariant. */
  lemma {:induction false} GetAllKeepsInv(c: Cache, opts: Options, items: seq<int>)
    requires ValidOptions(opts) && Inv(c, opts)
    ensures Inv(GetAll(c, opts, items).cache, opts)
    decreases |items|
  {
    if |items| > 0 {
      GetKeepsInv(c, opts, items[0]);
      GetAllKeepsInv(Get(c, opts, items[0]).cache, opts, items[1..]);
    }
  }

  /** The consecutive item indices from start up to, not including, end. */
  function Interval(start: int, end: int): (r: seq<int>)
    requires start <= end
    ensures |r| == end - start
    ensures forall i :: 0 <= i < |r| ==> r[i] == start + i
  {
    seq(end - start, i => start + i)
  }

  /** Requests every item of [start, end) in order; an end before the start
      is rejected before any request is made. */
  function GetRange(c: Cache, opts: Options, start: int, end: int): (r: RunOutcome)
    requires ValidOptions(opts)
    ensures (r.result.Failure? && r.result.error == InvalidRange) <==> end < start
    ensures end < start ==> r.cache == c
    ensures r.result.Success? ==>
      && |r.result.value| == end - start
      && forall i :: 0 <= i < |r.result.value| ==> r.result.value[i].item == start + i
    ensures r.result.Success? ==> r.cache.counter == c.counter + (end - start)
    ensures opts.allowIslands && start <= end ==> r.result.Success?
  {
    if end < start then RunOutcome(c, Failure(InvalidRange))
    else GetAll(c, opts, Interval(start, end))
  }
}
