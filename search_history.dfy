/**
 * The search-history panel (src/components/SearchHistory.tsx): its list
 * cell, loaded from the `searchHistory` storage entry on mount, and the
 * operations that record a term (move to front, no duplicates, at most
 * five) or clear the history.
 */
module SearchHistory {
  import opened Types
  import opened Text
  import opened Storage

  const MaxEntries: nat := 5

  /** `history.filter(item => item !== term)`. */
  function Without(history: seq<string>, term: string): (r: seq<string>)
    ensures term !in r
    ensures forall t :: t in r <==> t in history && t != term
    ensures |r| <= |history|
  {
    if history == [] then []
    else (if history[0] != term then [history[0]] else []) + Without(history[1..], term)
  }

  /** The list `addToHistory` builds: the term, then the other entries, cut to five. */
  function MoveToFront(history: seq<string>, term: string): seq<string> {
    Take([term] + Without(history, term), MaxEntries)
  }

  /** Removal distributes over concatenation: the kept entries stay in their order, each as often as before. */
  lemma {:induction false} WithoutAppend(a: seq<string>, b: seq<string>, term: string)
    ensures Without(a + b, term) == Without(a, term) + Without(b, term)
  {
    if a == [] {
      assert a + b == b;
    } else {
      assert (a + b)[0] == a[0];
      assert (a + b)[1..] == a[1..] + b;
      WithoutAppend(a[1..], b, term);
    }
  }

  lemma {:induction false} WithoutAbsent(history: seq<string>, term: string)
    requires term !in history
    ensures Without(history, term) == history
  {
    if history != [] {
      WithoutAbsent(history[1..], term);
    }
  }

  /**
   * After recording a term: it is first, it occurs once, there are at most
   * five entries, and the rest are the older entries other than the term,
   * in their order.
   */
  lemma MoveToFrontSpec(history: seq<string>, term: string)
    ensures var r := MoveToFront(history, term);
            1 <= |r| <= MaxEntries && r[0] == term &&
            multiset(r)[term] == 1 &&
            r[1..] == Take(Without(history, term), MaxEntries - 1)
  {
    var r := MoveToFront(history, term);
    var rest := Without(history, term);
    assert r == [term] + r[1..];
    assert r[1..] == Take(rest, MaxEntries - 1);
    assert multiset(r[1..])[term] == 0 by {
      assert forall k :: 0 <= k < |r[1..]| ==> r[1..][k] == rest[k];
    }
  }

  /** Recording the same term twice in a row is recording it once. */
  lemma MoveToFrontIdempotent(history: seq<string>, term: string)
    ensures MoveToFront(MoveToFront(history, term), term) == MoveToFront(history, term)
  {
    var once := MoveToFront(history, term);
    var rest := Without(history, term);
    var tail := Take(rest, MaxEntries - 1);
    assert once == [term] + tail;
    assert term !in tail by {
      assert forall k :: 0 <= k < |tail| ==> tail[k] == rest[k];
    }
    assert Without(once, term) == Without(tail, term);
    WithoutAbsent(tail, term);
  }

  /** The panel's state cell, bound to the shared storage entry. */
  class Panel {
    var searchHistory: seq<string>
    const storage: HistoryStorage

    /** Mount: an empty list, then the stored history if there is one. */
    constructor (storage: HistoryStorage)
      ensures this.storage == storage
      ensures searchHistory == storage.saved.GetOr([])
    {
      this.storage := storage;
      searchHistory := [];
      new;
      if storage.saved.Some? {
        searchHistory := storage.saved.value;
      }
    }

    /** `addToHistory`: a blank term does nothing; otherwise the new list is shown and stored. */
    method AddToHistory(term: string)
      modifies this`searchHistory, storage
      ensures IsBlank(term) ==> searchHistory == old(searchHistory) && storage.saved == old(storage.saved)
      ensures !IsBlank(term) ==>
                searchHistory == MoveToFront(old(searchHistory), term) && storage.saved == Some(searchHistory)
    {
      TrimEmptyIffBlank(term);
      if Trim(term) == "" {
        return;
      }
      var newHistory := MoveToFront(searchHistory, term);
      searchHistory := newHistory;
      storage.saved := Some(newHistory);
    }

    /** `clearHistory`: the list is emptied and the storage entry removed. */
    method ClearHistory()
      modifies this`searchHistory, storage
      ensures searchHistory == [] && storage.saved == None
    {
      searchHistory := [];
      storage.saved := None;
    }
  }
}
