/**
 * The browser's `localStorage` entry `searchHistory`, shared by the search
 * form of the student list and the search-history panel. The stored JSON
 * array is modelled by the list it encodes (parse and stringify are taken
 * to round-trip); an absent key is `None`.
 */
module Storage {
  import opened Types

  class HistoryStorage {
    var saved: Option<seq<string>>

    constructor (initial: Option<seq<string>>)
      ensures saved == initial
    {
      saved := initial;
    }
  }

  /** `list.slice(0, n)`: at most the first `n` entries. */
  function Take<T>(list: seq<T>, n: nat): (r: seq<T>)
    ensures |r| <= n && |r| <= |list|
    ensures |r| == n || r == list
    ensures forall k :: 0 <= k < |r| ==> r[k] == list[k]
  {
    if |list| <= n then list else list[..n]
  }
}
