// Concrete request sequences on the page cache and the sliding window,
// one lemma per request, with pageSize 20.
module Scenarios {
  import opened PagrxTypes
  import opened Islands
  import opened PageCache
  import opened SlidingWindow
  import opened WindowCallbacks

  /** Requesting item 0 of a fresh cache loads page 0 into a new island. */
  lemma MergeFirst()
    ensures var r := Get(Cache([], 0, []), DefaultOptions, 0).cache;
      && r.islands == [Island(0, [Page(0, 0)])]
      && r.counter == 1
      && r.loads == [LoadCall(0, 20)]
  {
    var c := Cache([], 0, []);
    var a := Island(0, [Page(0, 0)]);
    var s := MergeFirstServed(c, DefaultOptions, a);
    GetUnfold(c, DefaultOptions, 0, s);
    assert UpdateLRU(a, 1, 1000) == (a, false);
    KeepsSingle(a, 1, 1000);
    assert FindByBase([a], 1) == None;
    assert [] + [LoadCall(0, 20)] == [LoadCall(0, 20)];
  }

  /** The page lookup of MergeFirst: page 0 is loaded into a new island. */
  lemma MergeFirstServed(c: Cache, opts: Options, a: Island) returns (s: Served)
    requires c == Cache([], 0, []) && opts == DefaultOptions && a == Island(0, [Page(0, 0)])
    ensures ServePage(c.islands, opts, 0, c.counter, |c.loads|) == Success(s)
    ensures s.k == 0 && s.islands == [a] && s.hit.loaded && s.loc.page == 0
  {
    assert [] + [Island(0, [])] == [Island(0, [])];
    assert [Page(0, 0)] + [] == [Page(0, 0)];
    s := ServePage(c.islands, opts, 0, 0, 0).value;
    assert s.hit.island == a;
  }

  /** Requesting item 40 loads page 2 into a second island: page 1 lies between. */
  lemma MergeSecond()
    ensures var r := Get(Cache([Island(0, [Page(0, 0)])], 1, [LoadCall(0, 20)]), DefaultOptions, 40).cache;
      && r.islands == [Island(0, [Page(0, 0)]), Island(2, [Page(1, 1)])]
      && r.counter == 2
      && r.loads == [LoadCall(0, 20), LoadCall(2, 20)]
  {
    var c := Cache([Island(0, [Page(0, 0)])], 1, [LoadCall(0, 20)]);
    var a := Island(0, [Page(0, 0)]);
    var b := Island(2, [Page(1, 1)]);
    var s := MergeSecondServed(c, DefaultOptions, a, b);
    GetUnfold(c, DefaultOptions, 40, s);
    assert UpdateLRU(a, 2, 1000) == (a, false);
    assert UpdateLRU(b, 2, 1000) == (b, false);
    KeepsPair(a, b, 2, 1000);
    assert Prefix([a, b], 1) == [a];
    assert FindByBase([a, b], 3) == None;
  }

  /** The page lookup of MergeSecond: page 2 is loaded into a second island. */
  lemma MergeSecondServed(c: Cache, opts: Options, a: Island, b: Island) returns (s: Served)
    requires c == Cache([Island(0, [Page(0, 0)])], 1, [LoadCall(0, 20)]) && opts == DefaultOptions
    requires a == Island(0, [Page(0, 0)]) && b == Island(2, [Page(1, 1)])
    ensures ServePage(c.islands, opts, 40, c.counter, |c.loads|) == Success(s)
    ensures s.k == 1 && s.islands == [a, b] && s.hit.loaded && s.loc.page == 2
  {
    assert [a] + [Island(2, [])] == [a, Island(2, [])];
    assert [Page(1, 1)] + [] == [Page(1, 1)];
    s := ServePage(c.islands, opts, 40, 1, 1).value;
    assert s.hit.island == b;
  }

  /** An LRU pass that drops nothing from either of two islands keeps both. */
  lemma KeepsPair(a: Island, b: Island, counter: int, threshold: int)
    requires UpdateLRU(a, counter, threshold) == (a, false) && UpdateLRU(b, counter, threshold) == (b, false)
    ensures UpdateAllLRU([a, b], counter, threshold) == [a, b]
  {
    assert Prefix([a, b], 1) == [a];
    assert Prefix([a], 0) == [];
    assert UpdateAllLRU([a], counter, threshold) == [a];
  }

  /** Requesting page P + 1 while P and P + 2 are cached merges them into one island. */
  lemma MergeThird()
    ensures var r := Get(Cache([Island(0, [Page(0, 0)]), Island(2, [Page(1, 1)])], 2, [LoadCall(0, 20), LoadCall(2, 20)]), DefaultOptions, 20).cache;
      && r.islands == [Island(0, [Page(0, 0), Page(2, 2), Page(1, 1)])]
  {
    var c := Cache([Island(0, [Page(0, 0)]), Island(2, [Page(1, 1)])], 2, [LoadCall(0, 20), LoadCall(2, 20)]);
    var grown := Island(0, [Page(0, 0), Page(2, 2)]);
    var next := Island(2, [Page(1, 1)]);
    var s := MergeThirdServed(c, DefaultOptions, grown, next);
    GetUnfold(c, DefaultOptions, 20, s);
    assert UpdateLRU(grown, 3, 1000) == (grown, false);
    assert UpdateLRU(next, 3, 1000) == (next, false);
    KeepsPair(grown, next, 3, 1000);
    assert Prefix([grown, next], 0) == [];
    MergeThirdJoins(grown, next);
  }

  /** The page lookup of MergeThird: page 1 is loaded onto the first island's top. */
  lemma MergeThirdServed(c: Cache, opts: Options, grown: Island, next: Island) returns (s: Served)
    requires c == Cache([Island(0, [Page(0, 0)]), Island(2, [Page(1, 1)])], 2, [LoadCall(0, 20), LoadCall(2, 20)])
    requires opts == DefaultOptions && grown == Island(0, [Page(0, 0), Page(2, 2)]) && next == Island(2, [Page(1, 1)])
    ensures ServePage(c.islands, opts, 20, c.counter, |c.loads|) == Success(s)
    ensures s.k == 0 && s.islands == [grown, next]
  {
    assert [Page(0, 0)] + [Page(2, 2)] == [Page(0, 0), Page(2, 2)];
    s := ServePage(c.islands, opts, 20, 2, 2).value;
    assert s.hit.island == grown;
  }

  /** The merge pass of MergeThird: the island starting just past the grown
      one is appended to it. */
  lemma MergeThirdJoins(grown: Island, next: Island)
    requires grown == Island(0, [Page(0, 0), Page(2, 2)]) && next == Island(2, [Page(1, 1)])
    ensures OptimizeIslands([grown, next], grown, Some(0)) == [Island(0, [Page(0, 0), Page(2, 2), Page(1, 1)])]
  {
    assert [grown, next][0].base == 0 && [grown, next][1].base == 2;
    assert FindByBase([grown, next], 2) == Some(1);
    assert Append(grown, next).value == Island(0, [Page(0, 0), Page(2, 2), Page(1, 1)]);
  }

  /** Requests for pages P, P + 2 and P + 1 of a fresh cache leave one
      island of three pages. */
  lemma MergeScenario()
    ensures var c1 := Get(Cache([], 0, []), DefaultOptions, 0).cache;
      var c2 := Get(c1, DefaultOptions, 40).cache;
      var c3 := Get(c2, DefaultOptions, 20).cache;
      |c2.islands| == 2 && |c3.islands| == 1 && |c3.islands[0].pages| == 3
  {
    MergeFirst();
    var c1 := Get(Cache([], 0, []), DefaultOptions, 0).cache;
    assert c1 == Cache([Island(0, [Page(0, 0)])], 1, [LoadCall(0, 20)]);
    MergeSecond();
    var c2 := Get(c1, DefaultOptions, 40).cache;
    assert c2 == Cache([Island(0, [Page(0, 0)]), Island(2, [Page(1, 1)])], 2, [LoadCall(0, 20), LoadCall(2, 20)]);
    MergeThird();
  }

  /** The LRU pass over a single island that keeps it whole. */
  lemma KeepsSingle(a: Island, counter: int, threshold: int)
    requires UpdateLRU(a, counter, threshold) == (a, false)
    ensures UpdateAllLRU([a], counter, threshold) == [a]
  {
    assert Prefix([a], 0) == [];
  }

  /** The eviction test from a fresh cache with threshold 10: item 0, then
      items 20, 21, ... one request each. Warmup(n) is the cache after the
      first request and n more. */
  ghost function Warmup(n: nat): (c: Cache)
  {
    if n == 0 then Get(Cache([], 0, []), Options(20, 10, true), 0).cache
    else Get(Warmup(n - 1), Options(20, 10, true), 20 + n - 1).cache
  }

  /** The warm-up state after the first request and n more: one island,
      page 0 still stamped 0, page 1 stamped n, two loader calls. */
  function WarmState(n: int): (c: Cache)
  {
    Cache([Island(0, [Page(0, 0), Page(n, 1)])], n + 1, [LoadCall(0, 20), LoadCall(1, 20)])
  }

  /** After the first request and eight more, page 0 still carries stamp
      0 and page 1 the stamp of the latest request. */
  lemma Warmed()
    ensures Warmup(8) == WarmState(8)
  {
    WarmupOne();
    WarmupStep(1);
    WarmupStep(2);
    WarmupStep(3);
    WarmupStep(4);
    WarmupStep(5);
    WarmupStep(6);
    WarmupStep(7);
  }

  /** The first two requests of the warm-up. */
  lemma WarmupOne()
    ensures Warmup(1) == WarmState(1)
  {
    WarmupFirst();
    WarmupSecond();
  }

  /** One warm-up request after the second: Restamp on the state before it. */
  lemma WarmupStep(m: nat)
    requires 1 <= m <= 7 && Warmup(m) == WarmState(m)
    ensures Warmup(m + 1) == WarmState(m + 1)
  {
    Restamp(m, 20 + m);
  }

  /** The first request of the eviction test loads page 0. */
  lemma WarmupFirst()
    ensures Warmup(0) == Cache([Island(0, [Page(0, 0)])], 1, [LoadCall(0, 20)])
  {
    var c := Cache([], 0, []);
    var opts := Options(20, 10, true);
    var a := Island(0, [Page(0, 0)]);
    var s := WarmupFirstServed(c, opts, a);
    GetUnfold(c, opts, 0, s);
    assert UpdateLRU(a, 1, 10) == (a, false);
    KeepsSingle(a, 1, 10);
    assert FindByBase([a], 1) == None;
    assert [] + [LoadCall(0, 20)] == [LoadCall(0, 20)];
  }

  /** The page lookup of WarmupFirst: page 0 is loaded into a new island. */
  lemma WarmupFirstServed(c: Cache, opts: Options, a: Island) returns (s: Served)
    requires c == Cache([], 0, []) && opts == Options(20, 10, true) && a == Island(0, [Page(0, 0)])
    ensures ServePage(c.islands, opts, 0, c.counter, |c.loads|) == Success(s)
    ensures s.k == 0 && s.islands == [a] && s.hit.loaded && s.loc.page == 0
  {
    assert [] + [Island(0, [])] == [Island(0, [])];
    assert [Page(0, 0)] + [] == [Page(0, 0)];
    s := ServePage(c.islands, opts, 0, 0, 0).value;
    assert s.hit.island == a;
  }

  /** The second request, for item 20, grows the island by page 1. */
  lemma WarmupSecond()
    requires Warmup(0) == Cache([Island(0, [Page(0, 0)])], 1, [LoadCall(0, 20)])
    ensures Warmup(1) == Cache([Island(0, [Page(0, 0), Page(1, 1)])], 2, [LoadCall(0, 20), LoadCall(1, 20)])
  {
    var c := Cache([Island(0, [Page(0, 0)])], 1, [LoadCall(0, 20)]);
    var opts := Options(20, 10, true);
    var a := Island(0, [Page(0, 0), Page(1, 1)]);
    var s := WarmupSecondServed(c, opts, a);
    GetUnfold(c, opts, 20, s);
    assert UpdateLRU(a, 2, 10) == (a, false);
    KeepsSingle(a, 2, 10);
    assert FindByBase([a], 2) == None;
    assert [LoadCall(0, 20)] + [LoadCall(1, 20)] == [LoadCall(0, 20), LoadCall(1, 20)];
  }

  /** The page lookup of WarmupSecond: page 1 is loaded at the island's end. */
  lemma WarmupSecondServed(c: Cache, opts: Options, a: Island) returns (s: Served)
    requires c == Cache([Island(0, [Page(0, 0)])], 1, [LoadCall(0, 20)]) && opts == Options(20, 10, true)
    requires a == Island(0, [Page(0, 0), Page(1, 1)])
    ensures ServePage(c.islands, opts, 20, c.counter, |c.loads|) == Success(s)
    ensures s.k == 0 && s.islands == [a] && s.hit.loaded && s.loc.page == 1
  {
    assert [Page(0, 0)] + [Page(1, 1)] == [Page(0, 0), Page(1, 1)];
    s := ServePage(c.islands, opts, 20, 1, 1).value;
    assert s.hit.island == a;
  }

  /** Each later request of the warm-up hits page 1, last stamped m, and
      restamps it; page 0, stamped 0, survives while the counter stays
      below 10. */
  lemma Restamp(m: int, item: int)
    requires 1 <= m <= 7 && 20 <= item < 40
    ensures Get(Cache([Island(0, [Page(0, 0), Page(m, 1)])], m + 1, [LoadCall(0, 20), LoadCall(1, 20)]),
                Options(20, 10, true), item).cache
         == Cache([Island(0, [Page(0, 0), Page(m + 1, 1)])], m + 2, [LoadCall(0, 20), LoadCall(1, 20)])
  {
    var c := Cache([Island(0, [Page(0, 0), Page(m, 1)])], m + 1, [LoadCall(0, 20), LoadCall(1, 20)]);
    var opts := Options(20, 10, true);
    var a := Island(0, [Page(0, 0), Page(m + 1, 1)]);
    var s := RestampServed(c, opts, a, m, item);
    GetUnfold(c, opts, item, s);
    RestampKeeps(a, m);
    assert FindByBase([a], 2) == None;
  }

  /** The LRU pass of Restamp drops nothing. */
  lemma RestampKeeps(a: Island, m: int)
    requires 1 <= m <= 7 && a == Island(0, [Page(0, 0), Page(m + 1, 1)])
    ensures UpdateAllLRU([a], m + 2, 10) == [a]
  {
    assert UpdateLRU(a, m + 2, 10) == (a, false);
    KeepsSingle(a, m + 2, 10);
  }

  /** The page lookup of Restamp: the hit restamps page 1 in place. */
  lemma RestampServed(c: Cache, opts: Options, a: Island, m: int, item: int) returns (s: Served)
    requires 1 <= m <= 7 && 20 <= item < 40
    requires c == Cache([Island(0, [Page(0, 0), Page(m, 1)])], m + 1, [LoadCall(0, 20), LoadCall(1, 20)])
    requires opts == Options(20, 10, true) && a == Island(0, [Page(0, 0), Page(m + 1, 1)])
    ensures ServePage(c.islands, opts, item, c.counter, |c.loads|) == Success(s)
    ensures s.k == 0 && s.islands == [a] && !s.hit.loaded
  {
    assert [Page(0, 0), Page(m, 1)][1 := Page(m + 1, 1)] == [Page(0, 0), Page(m + 1, 1)];
    s := ServePage(c.islands, opts, item, m + 1, 2).value;
    assert s.loc.page == 1;
    assert s.hit.island == a;
  }

  /** The eviction test end to end: after nine requests page 0 is still
      cached, and the tenth request drops it and moves the island's base. */
  lemma EvictScenario()
    ensures |Warmup(8).islands| == 1 && |Warmup(8).islands[0].pages| == 2
    ensures var r := Get(Warmup(8), Options(20, 10, true), 20).cache.islands;
      |r| == 1 && |r[0].pages| == 1 && r[0].base == 1
  {
    Warmed();
    EvictNow();
  }

  /** With threshold 10, a page stamped 0 survives the request that moves
      the counter to 9 ... */
  lemma EvictNotYet()
    ensures Get(Cache([Island(0, [Page(0, 0), Page(7, 1)])], 8, [LoadCall(0, 20), LoadCall(1, 20)]),
                Options(20, 10, true), 20).cache.islands
         == [Island(0, [Page(0, 0), Page(8, 1)])]
  {
    var c := Cache([Island(0, [Page(0, 0), Page(7, 1)])], 8, [LoadCall(0, 20), LoadCall(1, 20)]);
    var opts := Options(20, 10, true);
    var a := Island(0, [Page(0, 0), Page(8, 1)]);
    var s := EvictNotYetServed(c, opts, a);
    GetUnfold(c, opts, 20, s);
    assert UpdateLRU(a, 9, 10) == (a, false);
    KeepsSingle(a, 9, 10);
    assert FindByBase([a], 2) == None;
  }

  /** The page lookup of EvictNotYet: the hit restamps page 1 in place. */
  lemma EvictNotYetServed(c: Cache, opts: Options, a: Island) returns (s: Served)
    requires c == Cache([Island(0, [Page(0, 0), Page(7, 1)])], 8, [LoadCall(0, 20), LoadCall(1, 20)])
    requires opts == Options(20, 10, true) && a == Island(0, [Page(0, 0), Page(8, 1)])
    ensures ServePage(c.islands, opts, 20, c.counter, |c.loads|) == Success(s)
    ensures s.k == 0 && s.islands == [a]
  {
    assert [Page(0, 0), Page(7, 1)][1 := Page(8, 1)] == [Page(0, 0), Page(8, 1)];
    s := ServePage(c.islands, opts, 20, 8, 2).value;
    assert s.hit.island == a;
  }

  /** ... and is dropped by the request that moves it to 10, shifting the
      island's base. */
  lemma EvictNow()
    ensures Get(Cache([Island(0, [Page(0, 0), Page(8, 1)])], 9, [LoadCall(0, 20), LoadCall(1, 20)]),
                Options(20, 10, true), 20).cache.islands
         == [Island(1, [Page(9, 1)])]
  {
    var c := Cache([Island(0, [Page(0, 0), Page(8, 1)])], 9, [LoadCall(0, 20), LoadCall(1, 20)]);
    var opts := Options(20, 10, true);
    var a := Island(0, [Page(0, 0), Page(9, 1)]);
    var b := Island(1, [Page(9, 1)]);
    var s := EvictNowServed(c, opts, a);
    GetUnfold(c, opts, 20, s);
    assert seq(|a.pages| - 1, i requires 0 <= i < |a.pages| - 1 => a.pages[i + 1]) == [Page(9, 1)];
    assert UpdateLRU(a, 10, 10) == (b, false);
    assert Prefix([a], 0) == [];
    assert UpdateAllLRU([a], 10, 10) == [b];
    assert FindByBase([b], 2) == None;
  }

  /** The page lookup of EvictNow: the hit restamps page 1 in place. */
  lemma EvictNowServed(c: Cache, opts: Options, a: Island) returns (s: Served)
    requires c == Cache([Island(0, [Page(0, 0), Page(8, 1)])], 9, [LoadCall(0, 20), LoadCall(1, 20)])
    requires opts == Options(20, 10, true) && a == Island(0, [Page(0, 0), Page(9, 1)])
    ensures ServePage(c.islands, opts, 20, c.counter, |c.loads|) == Success(s)
    ensures s.k == 0 && s.islands == [a]
  {
    assert [Page(0, 0), Page(8, 1)][1 := Page(9, 1)] == [Page(0, 0), Page(9, 1)];
    s := ServePage(c.islands, opts, 20, 9, 2).value;
    assert s.hit.island == a;
  }

  /** A range query after a jump, then a wider one around the same root:
      the second loads only the chunk it lacks, so the loader runs twice,
      and the new chunk asks for item 19. */
  lemma WindowReuse()
    ensures var w1 := JumpTo(Initial, 20);
      var r1 := GetRelativeRange(w1, 0, 0);
      var r2 := GetRelativeRange(r1.window, -1, 0);
      && |r1.window.calls| == 1
      && |r2.window.calls| == 2
      && r2.result == Success([1, 0])
      && CallsWellFormed(r2.window.calls)
      && SimpleCallback(r2.window.calls[1].direction, LoaderInput(r2.window.calls, 1)).item == 19
  {
    var w1 := JumpTo(Initial, 20);
    assert w1.chunks[0] == Links(None, None);
    InitialValid();
    JumpToRoot(Initial, 20);
    assert Walk(w1, 0, Forward, 0) == (w1, 0);
    assert Collect(w1, 0, 0) == (w1, []);
    var r1 := GetRelativeRange(w1, 0, 0);
    assert r1.window == w1;
    var step := Load(w1, Backward, 0);
    assert step.1 == 1;
    assert Walk(w1, 0, Backward, 1) == Walk(step.0, 1, Backward, 0);
    assert step.0.chunks[1].next == Some(0);
    assert Load(step.0, Forward, 1) == (step.0, 0);
    assert Collect(step.0, 0, 0) == (step.0, []);
    assert [0] + [] == [0];
    assert Collect(step.0, 1, 1) == (step.0, [0]);
    var r2 := GetRelativeRange(r1.window, -1, 0);
    assert [1] + [0] == [1, 0];
    assert r2.window == step.0;
    assert |step.0.calls| == 2;
    assert step.0.calls == [ChunkCall(Root(20), None), ChunkCall(Backward, Some(0))];
    LoaderCallAtPosition(step.0.calls, 1, 1);
  }

  /** After a first query, jumping to 40 and querying -1 through 3 loads five
      chunks, the first for item 39. */
  lemma JumpAgain()
    ensures var w := GetRelativeRange(JumpTo(Initial, 20), 0, 0).window;
      var r := GetRelativeRange(JumpTo(w, 40), -1, 3);
      && r.result.Success? && |r.result.value| == 5
      && r.result.value[0] < |r.window.calls| && CallsWellFormed(r.window.calls)
      && SimpleCallback(r.window.calls[r.result.value[0]].direction, LoaderInput(r.window.calls, r.result.value[0])).item == 39
  {
    InitialValid();
    JumpToPositioned(Initial, 20);
    var w := GetRelativeRange(JumpTo(Initial, 20), 0, 0).window;
    JumpThenRange(w, 40, -1, 3, 1);
  }
}
