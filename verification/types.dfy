/** Shared option, result and error types of the pagrx model, and the
    cache configuration with its defaults. */
module PagrxTypes {

  datatype Option<+T> = None | Some(value: T)

  /** The failures the library raises. Each one is a thrown error or a
      rejected promise in the library; the model does not distinguish the two. */
  datatype Error =
    | OutOfRange           // non-creating page lookup outside an island
    | NotNeighbouring      // an island asked to grow by more than one page
    | NotBoundaryPage      // LRU removal asked for an interior page
    | AppendMismatch       // merging two islands that are not adjacent
    | AllowIslandsDisabled // non-consecutive access while islands are disabled
    | InvalidRange         // range end before range start
    | NotInitialized       // window range query before any jump

  datatype Result<+T> = Success(value: T) | Failure(error: Error)

  /** Cache configuration: items per page, the number of global accesses a
      boundary page may go untouched before eviction, and whether
      non-consecutive page runs (islands) may coexist. */
  datatype Options = Options(pageSize: int, pagesLRUThreshold: int, allowIslands: bool)

  const DefaultOptions: Options := Options(20, 1000, true)

  /** Page size must be positive for the item-to-page division to make sense. */
  predicate ValidOptions(o: Options) {
    o.pageSize > 0
  }

  /** The library's defaults: 20 items per page, pages dropped after 1000
      requests untouched, islands allowed. */
  lemma DefaultOptionsValid()
    ensures ValidOptions(DefaultOptions)
    ensures DefaultOptions.pageSize == 20 && DefaultOptions.pagesLRUThreshold == 1000 && DefaultOptions.allowIslands
  {
  }
}
