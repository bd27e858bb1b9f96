/** The offset arithmetic of the two ready-made chunk loaders: one item per
    chunk, or a fixed-size run of items per chunk, both fetched through the
    page cache. */
module WindowCallbacks {
  import opened PagrxTypes
  import opened SlidingWindow
  import opened PageCache

  /** The item offsets a loaded chunk is tagged with. */
  datatype ChunkData = ChunkData(bottomOffset: int, topOffset: int)

  /** Both loaders tag the chunk they load with its index at both ends. */
  function Tagged(index: int): (d: ChunkData)
    ensures d.bottomOffset == d.topOffset == index
  {
    ChunkData(index, index)
  }

  /** The index a loader call resolves to. */
  function ChunkIndex(direction: Direction, neighbour: Option<ChunkData>): (index: int)
    requires !direction.Root? ==> neighbour.Some?
    // A root call resolves to its own offset and ignores the neighbour ...
    ensures direction.Root? ==> index == direction.offset
    // ... an extension reads the neighbour's tag and steps one past its top,
    // or one before its bottom.
    ensures direction == Forward ==> index == neighbour.value.topOffset + 1
    ensures direction == Backward ==> index == neighbour.value.bottomOffset - 1
  {
    match direction
    case Root(offset) => offset
    case Forward => neighbour.value.topOffset + 1
    case Backward => neighbour.value.bottomOffset - 1
  }

  /** What the one-item loader does for a call: it requests the item at
      the chunk index from the cache and tags the chunk with that index. */
  datatype SimpleLoad = SimpleLoad(item: int, data: ChunkData)

  function SimpleCallback(direction: Direction, neighbour: Option<ChunkData>): (r: SimpleLoad)
    requires !direction.Root? ==> neighbour.Some?
    ensures direction.Root? ==> r.item == direction.offset
    ensures direction == Forward ==> r.item == neighbour.value.topOffset + 1
    ensures direction == Backward ==> r.item == neighbour.value.bottomOffset - 1
    // The chunk is tagged with the requested item at both ends.
    ensures r.data.bottomOffset == r.data.topOffset == r.item
  {
    var index := ChunkIndex(direction, neighbour);
    SimpleLoad(index, Tagged(index))
  }

  /** The item range [start, end) of array chunk k. */
  datatype ItemRange = ItemRange(start: int, end: int)

  function ArrayItems(k: int, chunkSize: int): (r: ItemRange)
    ensures r.end - r.start == chunkSize
  {
    ItemRange(k * chunkSize, (k + 1) * chunkSize)
  }

  /** Consecutive array chunks tile the items with no gap and no overlap. */
  lemma ArrayChunksTile(k: int, chunkSize: int)
    ensures ArrayItems(k, chunkSize).end == ArrayItems(k + 1, chunkSize).start
  {
  }

  /** With a positive size, an item lies in array chunk k exactly when k is
      the item index divided by the size, rounded down. */
  lemma ArrayChunkOf(item: int, k: int, chunkSize: int)
    requires chunkSize > 0
    ensures ArrayItems(k, chunkSize).start <= item < ArrayItems(k, chunkSize).end <==> k == item / chunkSize
  {
    var q := item / chunkSize;
    var rem := item % chunkSize;
    assert item == q * chunkSize + rem && 0 <= rem < chunkSize;
    var d := q - k;
    assert item - k * chunkSize == d * chunkSize + rem by {
      assert q * chunkSize - k * chunkSize == d * chunkSize;
    }
    assert ArrayItems(k, chunkSize).end == k * chunkSize + chunkSize;
    if d >= 1 {
      PositiveMultiple(d, chunkSize);
    } else if d <= -1 {
      PositiveMultiple(-d, chunkSize);
      assert d * chunkSize == -((-d) * chunkSize);
    }
  }

  /** What the array loader does for a call: it requests the items of the
      chunk at the chunk index as one cache range and tags the chunk with
      that index. */
  datatype ArrayLoad = ArrayLoad(items: ItemRange, data: ChunkData)

  function ArrayCallback(direction: Direction, neighbour: Option<ChunkData>, chunkSize: int): (r: ArrayLoad)
    requires !direction.Root? ==> neighbour.Some?
    // The chunk is tagged with one index at both ends ...
    ensures r.data.bottomOffset == r.data.topOffset
    ensures direction.Root? ==> r.data.topOffset == direction.offset
    ensures direction == Forward ==> r.data.topOffset == neighbour.value.topOffset + 1
    ensures direction == Backward ==> r.data.topOffset == neighbour.value.bottomOffset - 1
    // ... and holds the items [index * chunkSize, (index + 1) * chunkSize).
    ensures r.items == ItemRange(r.data.topOffset * chunkSize, (r.data.topOffset + 1) * chunkSize)
  {
    var index := ChunkIndex(direction, neighbour);
    ArrayLoad(ArrayItems(index, chunkSize), Tagged(index))
  }

  /** Fetching an array chunk through the cache: with islands allowed and a
      non-negative size, it yields exactly chunkSize items, the i-th being
      item k * chunkSize + i; a negative size is a reversed range. */
  lemma ArrayChunkFetch(c: Cache, opts: Options, k: int, chunkSize: int)
    requires ValidOptions(opts)
    ensures var range := ArrayItems(k, chunkSize);
      var r := GetRange(c, opts, range.start, range.end);
      && (chunkSize < 0 <==> r.result == Failure(InvalidRange))
      && (opts.allowIslands && chunkSize >= 0 ==>
            && r.result.Success?
            && |r.result.value| == chunkSize
            && forall i :: 0 <= i < chunkSize ==> r.result.value[i].item == k * chunkSize + i)
  {
  }

  /** A positive multiple of a positive number is at least that number. */
  lemma {:induction false} PositiveMultiple(d: int, s: int)
    requires d >= 1 && s > 0
    ensures d * s >= s
    decreases d
  {
    if d > 1 {
      PositiveMultiple(d - 1, s);
      assert d * s == (d - 1) * s + s;
    }
  }

  /** The tag the loader gives the chunk of call id of a window's log: the
      loader is called with the call's direction and, for an extension, the
      tag it gave the neighbour earlier. Both ready-made loaders tag a chunk
      with its index at both ends, so the one-item loader stands for both. */
  ghost function LoaderTag(calls: seq<ChunkCall>, id: ChunkId): (d: ChunkData)
    requires id < |calls| && CallsWellFormed(calls)
    decreases id, 1
  {
    SimpleCallback(calls[id].direction, LoaderInput(calls, id)).data
  }

  /** The neighbour data the loader is given for call id: none for a root
      call, the neighbour's tag for an extension. */
  ghost function LoaderInput(calls: seq<ChunkCall>, id: ChunkId): (n: Option<ChunkData>)
    requires id < |calls| && CallsWellFormed(calls)
    ensures n.None? <==> calls[id].direction.Root?
    decreases id, 0
  {
    if calls[id].direction.Root? then None else Some(LoaderTag(calls, calls[id].neighbour.value))
  }

  /** The loaders tag every chunk with the position the window gives it. */
  lemma {:induction false} LoaderTagIsPosition(calls: seq<ChunkCall>, id: ChunkId)
    requires id < |calls| && CallsWellFormed(calls)
    ensures LoaderTag(calls, id) == Tagged(Position(calls, id))
    decreases id
  {
    if !calls[id].direction.Root? {
      LoaderTagIsPosition(calls, calls[id].neighbour.value);
    }
  }

  /** The loader call for a chunk asks for the item, or the item run, at
      the chunk's position. */
  lemma LoaderCallAtPosition(calls: seq<ChunkCall>, id: ChunkId, chunkSize: int)
    requires id < |calls| && CallsWellFormed(calls)
    ensures SimpleCallback(calls[id].direction, LoaderInput(calls, id)).item == Position(calls, id)
    ensures ArrayCallback(calls[id].direction, LoaderInput(calls, id), chunkSize).items
         == ArrayItems(Position(calls, id), chunkSize)
  {
    if !calls[id].direction.Root? {
      LoaderTagIsPosition(calls, calls[id].neighbour.value);
    }
  }

  /** After jumpTo(offset), the i-th chunk of getRelativeRange(from, to) is
      loaded for index offset + from + i: the one-item loader requests item
      offset + from + i, and the array loader requests the items of chunk
      offset + from + i. */
  lemma JumpThenRange(w: Window, offset: int, from: int, to: int, chunkSize: int)
    requires Valid(w)
    ensures var r := GetRelativeRange(JumpTo(w, offset), from, to);
      && (r.result.Success? <==> from <= to)
      && (r.result.Success? ==>
            && CallsWellFormed(r.window.calls)
            && forall i :: 0 <= i < |r.result.value| ==>
              && r.result.value[i] < |r.window.calls|
              && SimpleCallback(r.window.calls[r.result.value[i]].direction, LoaderInput(r.window.calls, r.result.value[i])).item
                 == offset + from + i
              && ArrayCallback(r.window.calls[r.result.value[i]].direction, LoaderInput(r.window.calls, r.result.value[i]), chunkSize).items
                 == ArrayItems(offset + from + i, chunkSize))
  {
    var v := JumpTo(w, offset);
    JumpToPositioned(w, offset);
    RelativeRangePositions(v, from, to);
    var r := GetRelativeRange(v, from, to);
    if r.result.Success? {
      GetRelativeRangeChain(v, from, to);
      forall i | 0 <= i < |r.result.value|
        ensures && r.result.value[i] < |r.window.calls|
                && SimpleCallback(r.window.calls[r.result.value[i]].direction, LoaderInput(r.window.calls, r.result.value[i])).item
                   == offset + from + i
                && ArrayCallback(r.window.calls[r.result.value[i]].direction, LoaderInput(r.window.calls, r.result.value[i]), chunkSize).items
                   == ArrayItems(offset + from + i, chunkSize)
      {
        LoaderCallAtPosition(r.window.calls, r.result.value[i], chunkSize);
      }
    }
  }
}
