/** The sliding window: a lazily extended, doubly linked list of chunks
    around a root chunk, stored as an arena of links keyed by chunk id, with
    the log of every chunk-loader invocation. */
module SlidingWindow {
  import opened PagrxTypes

  /** A chunk is named by the position of its loader call in the call log. */
  type ChunkId = nat

  /** What a chunk-loader call asks for: a root at an item offset, or the
      neighbour of a known chunk in one direction. */
  datatype Direction = Forward | Backward | Root(offset: int)

  /** One invocation of the chunk loader. Extension calls carry the chunk
      they extend; root calls carry none. */
  datatype ChunkCall = ChunkCall(direction: Direction, neighbour: Option<ChunkId>)

  /** A chunk's links to its neighbours in the list. */
  datatype Links = Links(previous: Option<ChunkId>, next: Option<ChunkId>)

  /** The live chunks with their links, the root chunk once a jump has
      happened, the offset given to the last jump, and the loader log. */
  datatype Window = Window(chunks: map<ChunkId, Links>, root: Option<ChunkId>, topItemOffset: int, calls: seq<ChunkCall>)

  /** A freshly constructed window: no root, no chunks, no loader calls. */
  const Initial: Window := Window(map[], None, 0, [])

  /** The link a load in direction dir follows. */
  function Link(l: Links, dir: Direction): (r: Option<ChunkId>)
    requires !dir.Root?
    ensures dir == Forward ==> r == l.next
    ensures dir == Backward ==> r == l.previous
  {
    if dir == Forward then l.next else l.previous
  }

  /** The direction a new chunk links back to its neighbour in. */
  function Opposite(dir: Direction): (r: Direction)
    requires !dir.Root?
    ensures !r.Root? && r != dir
  {
    if dir == Forward then Backward else Forward
  }

  /** Root calls have no neighbour, extension calls name an earlier chunk. */
  ghost predicate CallsWellFormed(calls: seq<ChunkCall>) {
    forall i :: 0 <= i < |calls| ==>
      && (calls[i].direction.Root? <==> calls[i].neighbour.None?)
      && (calls[i].neighbour.Some? ==> calls[i].neighbour.value < i)
  }

  /** Links point at live chunks and are mirrored. */
  ghost predicate LinksMirrored(chunks: map<ChunkId, Links>) {
    && (forall a {:trigger chunks[a].next} :: a in chunks && chunks[a].next.Some? ==>
          chunks[a].next.value in chunks && chunks[chunks[a].next.value].previous == Some(a))
    && (forall a {:trigger chunks[a].previous} :: a in chunks && chunks[a].previous.Some? ==>
          chunks[a].previous.value in chunks && chunks[chunks[a].previous.value].next == Some(a))
  }

  /** An extension call whose neighbour is still live is recorded as that
      neighbour's link in the call's direction. */
  ghost predicate CallsRecorded(w: Window) {
    forall i :: 0 <= i < |w.calls| && w.calls[i].neighbour.Some? && w.calls[i].neighbour.value in w.chunks ==>
      !w.calls[i].direction.Root? && Link(w.chunks[w.calls[i].neighbour.value], w.calls[i].direction).Some?
  }

  /** Every live chunk has its loader call in the log, and links are mirrored. */
  ghost predicate Closed(w: Window) {
    && (forall a :: a in w.chunks ==> a < |w.calls|)
    && LinksMirrored(w.chunks)
  }

  /** The window invariant: closed, a well-formed log, a live root once a
      jump has happened (and no chunks before), and recorded extensions. */
  ghost predicate Valid(w: Window) {
    && Closed(w)
    && CallsWellFormed(w.calls)
    && (w.root.None? ==> w.chunks == map[])
    && (w.root.Some? ==> w.root.value in w.chunks)
    && CallsRecorded(w)
  }

  /** Set links are never changed or cleared. */
  predicate Grows(before: Links, after: Links) {
    && (before.next.Some? ==> after.next == before.next)
    && (before.previous.Some? ==> after.previous == before.previous)
  }

  /** Every live chunk stays live with at least its links. */
  predicate Extends(before: map<ChunkId, Links>, after: map<ChunkId, Links>) {
    forall a :: a in before ==> a in after && Grows(before[a], after[a])
  }

  /** A freshly constructed window satisfies the invariant. */
  lemma InitialValid()
    ensures Valid(Initial)
  {
  }

  /** The root chunk, or NotInitialized before the first jump. */
  function RootOf(w: Window): (r: Result<ChunkId>)
    ensures r.Failure? <==> w.root.None?
    ensures r.Failure? ==> r.error == NotInitialized
    ensures r.Success? ==> Some(r.value) == w.root
  {
    match w.root
    case None => Failure(NotInitialized)
    case Some(id) => Success(id)
  }

  /** Discards the current list and starts a new one at a root chunk loaded
      with a root call for the given offset. */
  function JumpTo(w: Window, offset: int): (r: Window)
    ensures r.root == Some(|w.calls|) && r.topItemOffset == offset
    ensures r.calls == w.calls + [ChunkCall(Root(offset), None)]
    ensures r.chunks == map[|w.calls| := Links(None, None)]
  {
    var id := |w.calls|;
    Window(map[id := Links(None, None)], Some(id), offset, w.calls + [ChunkCall(Root(offset), None)])
  }

  /** After a jump the root is the chunk of the new root call, with no neighbours. */
  lemma JumpToRoot(w: Window, offset: int)
    requires Valid(w)
    ensures var r := JumpTo(w, offset);
      && Valid(r)
      && RootOf(r).Success?
      && r.calls[RootOf(r).value] == ChunkCall(Root(offset), None)
      && r.chunks[RootOf(r).value] == Links(None, None)
      && |r.chunks| == 1
  {
    var r := JumpTo(w, offset);
    assert r.chunks.Keys == {|w.calls|};
  }

  /** Returns the neighbour of n in direction dir: the linked chunk when the
      link is set, otherwise a new chunk from one loader call, linked both ways. */
  function Load(w: Window, dir: Direction, n: ChunkId): (r: (Window, ChunkId))
    requires Closed(w) && n in w.chunks && !dir.Root?
    ensures r.1 in r.0.chunks && n in r.0.chunks
    ensures Link(r.0.chunks[n], dir) == Some(r.1)
    ensures Link(r.0.chunks[r.1], Opposite(dir)) == Some(n)
    // A set link is followed without calling the loader ...
    ensures Link(w.chunks[n], dir).Some? ==> r == (w, Link(w.chunks[n], dir).value)
    // ... an unset one costs exactly one loader call and one new chunk.
    ensures Link(w.chunks[n], dir).None? ==>
      && r.1 == |w.calls| && r.1 !in w.chunks
      && r.0.calls == w.calls + [ChunkCall(dir, Some(n))]
      && r.0.chunks.Keys == w.chunks.Keys + {r.1}
      && Link(r.0.chunks[r.1], dir).None?
    // Only the link of n in this direction may change: its other link and
    // every other existing chunk stay as they were.
    ensures Link(r.0.chunks[n], Opposite(dir)) == Link(w.chunks[n], Opposite(dir))
    ensures forall a :: a in w.chunks && a != n ==> r.0.chunks[a] == w.chunks[a]
    ensures r.0.root == w.root && r.0.topItemOffset == w.topItemOffset
    ensures Extends(w.chunks, r.0.chunks)
  {
    match Link(w.chunks[n], dir)
    case Some(existing) => (w, existing)
    case None =>
      var id := |w.calls|;
      var created := if dir == Forward then Links(Some(n), None) else Links(None, Some(n));
      var linked := if dir == Forward then w.chunks[n].(next := Some(id)) else w.chunks[n].(previous := Some(id));
      (w.(chunks := w.chunks[n := linked][id := created], calls := w.calls + [ChunkCall(dir, Some(n))]), id)
  }

  /** A load keeps every chunk logged and every link mirrored. */
  lemma LoadKeepsClosed(w: Window, dir: Direction, n: ChunkId)
    requires Closed(w) && n in w.chunks && !dir.Root?
    ensures Closed(Load(w, dir, n).0)
  {
    if Link(w.chunks[n], dir).None? {
      LinksMirroredAfterLoad(w, dir, n);
    }
  }

  /** Linking a new chunk both ways keeps the links mirrored. */
  lemma LinksMirroredAfterLoad(w: Window, dir: Direction, n: ChunkId)
    requires Closed(w) && n in w.chunks && !dir.Root?
    requires Link(w.chunks[n], dir).None?
    ensures LinksMirrored(Load(w, dir, n).0.chunks)
  {
  }

  /** An extension call logged by a load names an earlier, live chunk. */
  lemma LoadKeepsCalls(w: Window, dir: Direction, n: ChunkId)
    requires Closed(w) && CallsWellFormed(w.calls) && n in w.chunks && !dir.Root?
    ensures CallsWellFormed(Load(w, dir, n).0.calls)
  {
  }

  /** A load keeps the window invariant. */
  lemma LoadKeepsValid(w: Window, dir: Direction, n: ChunkId)
    requires Valid(w) && n in w.chunks && !dir.Root?
    ensures Valid(Load(w, dir, n).0)
  {
    LoadKeepsClosed(w, dir, n);
  }

  /** A chunk already extended in a direction is never extended again:
      loading from it calls the loader only if no earlier call asked for
      the same neighbour and direction. */
  lemma LoadCallsOncePerLink(w: Window, dir: Direction, n: ChunkId, i: nat)
    requires Valid(w) && n in w.chunks && !dir.Root?
    requires i < |w.calls| && w.calls[i] == ChunkCall(dir, Some(n))
    ensures Load(w, dir, n).0 == w
  {
    assert Link(w.chunks[n], dir).Some?;
  }

  /** The item index a chunk stands for: the offset of its root call, or
      one past or one before the chunk its extension call names. */
  ghost function Position(calls: seq<ChunkCall>, id: ChunkId): (p: int)
    requires id < |calls| && CallsWellFormed(calls)
    decreases id
  {
    match calls[id].direction
    case Root(offset) => offset
    case Forward => Position(calls, calls[id].neighbour.value) + 1
    case Backward => Position(calls, calls[id].neighbour.value) - 1
  }

  /** Appending loader calls leaves the positions of existing chunks alone. */
  lemma {:induction false} PositionPrefix(calls: seq<ChunkCall>, more: seq<ChunkCall>, id: ChunkId)
    requires CallsWellFormed(calls) && CallsWellFormed(more) && calls <= more && id < |calls|
    ensures Position(more, id) == Position(calls, id)
    decreases id
  {
    assert more[id] == calls[id];
    if !calls[id].direction.Root? {
      PositionPrefix(calls, more, calls[id].neighbour.value);
    }
  }

  /** The position change of one step in direction dir. */
  function Step(dir: Direction): (r: int)
    requires !dir.Root?
    ensures r == 1 || r == -1
    ensures r == 1 <==> dir == Forward
  {
    if dir == Forward then 1 else -1
  }

  /** A well-formed window whose forward links go to the chunk one position
      higher, and whose root sits at the offset of the last jump. */
  ghost predicate Positioned(w: Window) {
    && Valid(w)
    && (forall a {:trigger Position(w.calls, w.chunks[a].next.value)} :: a in w.chunks && w.chunks[a].next.Some? ==>
          Position(w.calls, w.chunks[a].next.value) == Position(w.calls, a) + 1)
    && (w.root.Some? ==> Position(w.calls, w.root.value) == w.topItemOffset)
  }

  /** A freshly constructed window has no chunk to misplace. */
  lemma InitialPositioned()
    ensures Positioned(Initial)
  {
  }

  /** After a jump the root chunk stands for the offset jumped to. */
  lemma JumpToPositioned(w: Window, offset: int)
    requires Valid(w)
    ensures Positioned(JumpTo(w, offset))
    ensures Position(JumpTo(w, offset).calls, JumpTo(w, offset).root.value) == offset
  {
    JumpToRoot(w, offset);
  }

  /** A load places a new neighbour one step from the chunk it extends,
      and every other chunk keeps its position. */
  lemma LoadKeepsPositioned(w: Window, dir: Direction, n: ChunkId)
    requires Positioned(w) && n in w.chunks && !dir.Root?
    ensures Positioned(Load(w, dir, n).0)
    ensures Position(Load(w, dir, n).0.calls, Load(w, dir, n).1) == Position(w.calls, n) + Step(dir)
  {
    if Link(w.chunks[n], dir).None? {
      NewChunkPositioned(w, dir, n);
    } else if dir == Backward {
      assert w.chunks[Load(w, dir, n).1].next == Some(n);
    }
  }

  /** LoadKeepsPositioned for a load that creates a chunk. */
  lemma NewChunkPositioned(w: Window, dir: Direction, n: ChunkId)
    requires Positioned(w) && n in w.chunks && !dir.Root? && Link(w.chunks[n], dir).None?
    ensures Positioned(Load(w, dir, n).0)
    ensures Position(Load(w, dir, n).0.calls, Load(w, dir, n).1) == Position(w.calls, n) + Step(dir)
  {
    LoadKeepsValid(w, dir, n);
    var r := Load(w, dir, n);
    forall a | a in w.chunks
      ensures Position(r.0.calls, a) == Position(w.calls, a)
    {
      PositionPrefix(w.calls, r.0.calls, a);
    }
    assert r.0.calls[r.1] == ChunkCall(dir, Some(n));
    forall a | a in r.0.chunks && r.0.chunks[a].next.Some?
      ensures Position(r.0.calls, r.0.chunks[a].next.value) == Position(r.0.calls, a) + 1
    {
      if a != r.1 && a != n {
        assert r.0.chunks[a] == w.chunks[a];
      }
    }
  }

  /** A load keeps whichever of the two window invariants held before it. */
  lemma LoadKeepsPositionedIf(w: Window, dir: Direction, n: ChunkId)
    requires Closed(w) && n in w.chunks && !dir.Root?
    ensures Valid(w) ==> Valid(Load(w, dir, n).0)
    ensures Positioned(w) ==> Positioned(Load(w, dir, n).0)
  {
    if Positioned(w) {
      LoadKeepsPositioned(w, dir, n);
    }
    if Valid(w) {
      LoadKeepsValid(w, dir, n);
    }
  }

  /** The chunk reached from a by following n links in direction dir,
      without loading. */
  ghost function Follow(chunks: map<ChunkId, Links>, a: ChunkId, dir: Direction, n: nat): (r: Option<ChunkId>)
    requires !dir.Root?
    decreases n
  {
    if n == 0 then Some(a)
    else if a !in chunks then None
    else
      match Link(chunks[a], dir)
      case None => None
      case Some(b) => Follow(chunks, b, dir, n - 1)
  }

  /** Following set links gives the same chunk once the list has grown. */
  lemma {:induction false} FollowExtends(before: map<ChunkId, Links>, after: map<ChunkId, Links>, a: ChunkId, dir: Direction, n: nat)
    requires !dir.Root? && Extends(before, after) && Follow(before, a, dir, n).Some?
    ensures Follow(after, a, dir, n) == Follow(before, a, dir, n)
    decreases n
  {
    if n > 0 {
      FollowExtends(before, after, Link(before[a], dir).value, dir, n - 1);
    }
  }

  /** Growing the list twice is growing it once. */
  lemma ExtendsTransitive(a: map<ChunkId, Links>, b: map<ChunkId, Links>, c: map<ChunkId, Links>)
    requires Extends(a, b) && Extends(b, c)
    ensures Extends(a, c)
  {
  }

  /** Moves n chunks away from start in direction dir, loading every
      missing chunk on the way. */
  function Walk(w: Window, start: ChunkId, dir: Direction, n: nat): (r: (Window, ChunkId))
    requires Closed(w) && start in w.chunks && !dir.Root?
    ensures Closed(r.0) && r.1 in r.0.chunks
    // It ends n links away from where it started.
    ensures Follow(r.0.chunks, start, dir, n) == Some(r.1)
    ensures r.0.root == w.root && r.0.topItemOffset == w.topItemOffset
    ensures Extends(w.chunks, r.0.chunks)
    // Loader calls are only appended, at most one per step.
    ensures w.calls <= r.0.calls && |r.0.calls| <= |w.calls| + n
    ensures Valid(w) ==> Valid(r.0)
    ensures Positioned(w) ==> Positioned(r.0)
    decreases n
  {
    if n == 0 then
      (w, start)
    else
      LoadKeepsClosed(w, dir, start);
      LoadKeepsPositionedIf(w, dir, start);
      var step := Load(w, dir, start);
      var r := Walk(step.0, step.1, dir, n - 1);
      ExtendsTransitive(w.chunks, step.0.chunks, r.0.chunks);
      assert Grows(step.0.chunks[start], r.0.chunks[start]);
      FollowStep(r.0.chunks, start, dir, n, step.1);
      r
  }

  /** Following n links is one link followed by n - 1 more. */
  lemma FollowStep(chunks: map<ChunkId, Links>, a: ChunkId, dir: Direction, n: nat, b: ChunkId)
    requires !dir.Root? && n > 0 && a in chunks && Link(chunks[a], dir) == Some(b)
    ensures Follow(chunks, a, dir, n) == Follow(chunks, b, dir, n - 1)
  {
  }

  /** Consecutive chunks of ids are linked forward, and all are live. */
  ghost predicate Chain(chunks: map<ChunkId, Links>, ids: seq<ChunkId>) {
    && (forall i :: 0 <= i < |ids| ==> ids[i] in chunks)
    && (forall i :: 0 <= i < |ids| - 1 ==> chunks[ids[i]].next == Some(ids[i + 1]))
  }

  /** A chain grows at its front by a chunk linked to its first element. */
  lemma ChainCons(chunks: map<ChunkId, Links>, a: ChunkId, ids: seq<ChunkId>)
    requires |ids| > 0 && Chain(chunks, ids) && a in chunks && chunks[a].next == Some(ids[0])
    ensures Chain(chunks, [a] + ids)
  {
    var all := [a] + ids;
    assert forall i :: 1 <= i < |all| ==> all[i] == ids[i - 1];
  }

  /** Loads count chunks forward of current, one after another, and lists them. */
  function Collect(w: Window, current: ChunkId, count: nat): (r: (Window, seq<ChunkId>))
    requires Closed(w) && current in w.chunks
    ensures Closed(r.0) && |r.1| == count
    ensures Chain(r.0.chunks, [current] + r.1)
    ensures r.0.root == w.root && r.0.topItemOffset == w.topItemOffset
    ensures Extends(w.chunks, r.0.chunks)
    ensures w.calls <= r.0.calls && |r.0.calls| <= |w.calls| + count
    ensures Valid(w) ==> Valid(r.0)
    ensures Positioned(w) ==> Positioned(r.0)
    decreases count
  {
    if count == 0 then
      (w, [])
    else
      LoadKeepsClosed(w, Forward, current);
      LoadKeepsPositionedIf(w, Forward, current);
      var step := Load(w, Forward, current);
      var rest := Collect(step.0, step.1, count - 1);
      ExtendsTransitive(w.chunks, step.0.chunks, rest.0.chunks);
      assert Grows(step.0.chunks[current], rest.0.chunks[current]);
      ChainCons(rest.0.chunks, current, [step.1] + rest.1);
      (rest.0, [step.1] + rest.1)
  }

  /** Outcome of a range query: the window after it and either the chunks
      of the range, in order, or the failure. */
  datatype RangeOutcome = RangeOutcome(window: Window, result: Result<seq<ChunkId>>)

  /** The chunks at relative positions from through to around the root, in
      order, loading the missing ones. Fails on a reversed range, and before
      the first jump. */
  function GetRelativeRange(w: Window, from: int, to: int): (r: RangeOutcome)
    requires Valid(w)
    ensures r.result.Failure? <==> from > to || w.root.None?
    ensures from > to ==> r.result == Failure(InvalidRange)
    ensures from <= to && w.root.None? ==> r.result == Failure(NotInitialized)
    ensures r.result.Failure? ==> r.window == w
    ensures r.result.Success? ==> |r.result.value| == to - from + 1
    ensures r.window.root == w.root && r.window.topItemOffset == w.topItemOffset
    ensures Extends(w.chunks, r.window.chunks)
    // Loader calls are only appended, at most one per link walked or collected.
    ensures w.calls <= r.window.calls
    ensures r.result.Success? ==> |r.window.calls| <= |w.calls| + Distance(from) + (to - from)
  {
    if from > to then
      RangeOutcome(w, Failure(InvalidRange))
    else
      match RootOf(w)
      case Failure(e) => RangeOutcome(w, Failure(e))
      case Success(root) =>
        var start := Walk(w, root, Heading(from), Distance(from));
        var rest := Collect(start.0, start.1, to - from);
        ExtendsTransitive(w.chunks, start.0.chunks, rest.0.chunks);
        RangeOutcome(rest.0, Success([start.1] + rest.1))
  }

  /** The direction of a relative position from the root ... */
  function Heading(from: int): (r: Direction)
    ensures !r.Root? && (r == Backward <==> from < 0)
  {
    if from < 0 then Backward else Forward
  }

  /** ... and its number of steps. */
  function Distance(from: int): (r: nat)
    ensures r == from || r == -from
  {
    if from < 0 then -from else from
  }

  /** A range query keeps the window well formed; its chunks are the one
      from links away from the root followed by the next ones, in list order. */
  lemma GetRelativeRangeChain(w: Window, from: int, to: int)
    requires Valid(w)
    ensures Valid(GetRelativeRange(w, from, to).window)
    ensures var r := GetRelativeRange(w, from, to);
      r.result.Success? ==>
        && Follow(r.window.chunks, w.root.value, Heading(from), Distance(from)) == Some(r.result.value[0])
        && Chain(r.window.chunks, r.result.value)
  {
    if from <= to && w.root.Some? {
      var root := w.root.value;
      var start := Walk(w, root, Heading(from), Distance(from));
      var rest := Collect(start.0, start.1, to - from);
      FollowExtends(start.0.chunks, rest.0.chunks, root, Heading(from), Distance(from));
    }
  }

  /** Walking along links that are all set loads nothing. */
  lemma {:induction false} WalkReuses(w: Window, start: ChunkId, dir: Direction, n: nat)
    requires Closed(w) && start in w.chunks && !dir.Root?
    requires Follow(w.chunks, start, dir, n).Some?
    ensures Walk(w, start, dir, n) == (w, Follow(w.chunks, start, dir, n).value)
    decreases n
  {
    if n > 0 {
      var next := Link(w.chunks[start], dir).value;
      assert Load(w, dir, start) == (w, next);
      WalkReuses(w, next, dir, n - 1);
    }
  }

  /** Collecting along a chain that is already linked loads nothing. */
  lemma {:induction false} CollectReuses(w: Window, current: ChunkId, ids: seq<ChunkId>)
    requires Closed(w) && current in w.chunks
    requires Chain(w.chunks, [current] + ids)
    ensures Collect(w, current, |ids|) == (w, ids)
    decreases |ids|
  {
    if |ids| > 0 {
      assert ([current] + ids)[0] == current && ([current] + ids)[1] == ids[0];
      assert w.chunks[current].next == Some(ids[0]);
      assert Load(w, Forward, current) == (w, ids[0]);
      var tail := [ids[0]] + ids[1..];
      assert forall i :: 0 <= i < |tail| ==> tail[i] == ([current] + ids)[i + 1];
      CollectReuses(w, ids[0], ids[1..]);
      assert [ids[0]] + ids[1..] == ids;
    }
  }

  /** Asking again for the same relative range loads nothing and returns
      the same chunks. */
  lemma GetRelativeRangeTwice(w: Window, from: int, to: int)
    requires Valid(w)
    ensures var first := GetRelativeRange(w, from, to);
      Valid(first.window) && GetRelativeRange(first.window, from, to) == first
  {
    GetRelativeRangeChain(w, from, to);
    var first := GetRelativeRange(w, from, to);
    if from <= to && w.root.Some? {
      var root := w.root.value;
      var ids := first.result.value;
      var v := first.window;
      WalkReuses(v, root, Heading(from), Distance(from));
      var start := Walk(v, root, Heading(from), Distance(from));
      assert start == (v, ids[0]);
      assert [ids[0]] + ids[1..] == ids;
      CollectReuses(v, ids[0], ids[1..]);
    }
  }

  /** Following n links in direction dir moves the position by n. */
  lemma {:induction false} FollowPosition(w: Window, a: ChunkId, dir: Direction, n: nat)
    requires Positioned(w) && a in w.chunks && !dir.Root?
    requires Follow(w.chunks, a, dir, n).Some?
    ensures Follow(w.chunks, a, dir, n).value in w.chunks
    ensures Position(w.calls, Follow(w.chunks, a, dir, n).value) == Position(w.calls, a) + (if dir == Forward then n as int else -(n as int))
    decreases n
  {
    if n > 0 {
      var b := Link(w.chunks[a], dir).value;
      if dir == Backward {
        assert w.chunks[b].next == Some(a);
      }
      FollowStep(w.chunks, a, dir, n, b);
      FollowPosition(w, b, dir, n - 1);
    }
  }

  /** Along a forward chain the positions count up by one per chunk. */
  lemma {:induction false} ChainPosition(w: Window, ids: seq<ChunkId>, i: nat)
    requires Positioned(w) && Chain(w.chunks, ids) && i < |ids|
    ensures Position(w.calls, ids[i]) == Position(w.calls, ids[0]) + i
    decreases i
  {
    if i > 0 {
      ChainPosition(w, ids, i - 1);
      assert w.chunks[ids[i - 1]].next == Some(ids[i]);
    }
  }

  /** A range query keeps every chunk where it stands, and its i-th chunk
      stands for item topItemOffset + from + i. */
  lemma RelativeRangePositions(w: Window, from: int, to: int)
    requires Positioned(w)
    ensures var r := GetRelativeRange(w, from, to);
      && Positioned(r.window)
      && (r.result.Success? ==>
            forall i :: 0 <= i < |r.result.value| ==>
              Position(r.window.calls, r.result.value[i]) == w.topItemOffset + from + i)
  {
    GetRelativeRangeChain(w, from, to);
    var r := GetRelativeRange(w, from, to);
    if from <= to && w.root.Some? {
      var root := w.root.value;
      PositionPrefix(w.calls, r.window.calls, root);
      FollowPosition(r.window, root, Heading(from), Distance(from));
      var ids := r.result.value;
      forall i | 0 <= i < |ids|
        ensures Position(r.window.calls, ids[i]) == w.topItemOffset + from + i
      {
        ChainPosition(r.window, ids, i);
      }
    }
  }
}
