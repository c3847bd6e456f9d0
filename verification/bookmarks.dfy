/**
 * The bookmark list of `useBookmarks`: resource ids kept in a sequence under
 * one local-storage key, flipped one id at a time.
 */
module Bookmarks {
  import opened Optional
  import opened Seqs

  /** The initial list: what the key holds, or nothing when the key is absent. */
  function InitialBookmarks(stored: Option<seq<string>>): (r: seq<string>)
    ensures stored.Some? ==> r == stored.value
    ensures stored.None? ==> r == []
  {
    stored.GetOr([])
  }

  /** `isBookmarked`. */
  predicate IsBookmarked(bookmarks: seq<string>, id: string) {
    id in bookmarks
  }

  /**
   * `toggleBookmark`: a present id is removed (every occurrence of it);
   * an absent id is appended at the end.
   */
  function Toggle(bookmarks: seq<string>, id: string): (r: seq<string>)
    ensures id in bookmarks ==> r == Filter(bookmarks, (x: string) => x != id)
    ensures id !in bookmarks ==> r == bookmarks + [id]
  {
    if id in bookmarks then Filter(bookmarks, (x: string) => x != id) else bookmarks + [id]
  }

  /** After a toggle, `isBookmarked(id)` is the negation of what it was. */
  lemma ToggleFlips(bookmarks: seq<string>, id: string)
    ensures IsBookmarked(Toggle(bookmarks, id), id) == !IsBookmarked(bookmarks, id)
  {
  }

  /** A toggle leaves the membership of every other id alone. */
  lemma ToggleKeepsOthers(bookmarks: seq<string>, id: string, other: string)
    requires other != id
    ensures IsBookmarked(Toggle(bookmarks, id), other) == IsBookmarked(bookmarks, other)
  {
    if other in bookmarks {
      var i :| 0 <= i < |bookmarks| && bookmarks[i] == other;
    }
  }

  /** A list without repeats stays without repeats. */
  lemma ToggleKeepsDistinct(bookmarks: seq<string>, id: string)
    requires Distinct(bookmarks)
    ensures Distinct(Toggle(bookmarks, id))
  {
    if id in bookmarks {
      FilterDistinct(bookmarks, (x: string) => x != id);
    }
  }

  /** Toggling twice restores which ids are bookmarked. */
  lemma ToggleTwiceRestoresMembership(bookmarks: seq<string>, id: string, x: string)
    ensures IsBookmarked(Toggle(Toggle(bookmarks, id), id), x) == IsBookmarked(bookmarks, x)
  {
    if x != id {
      ToggleKeepsOthers(bookmarks, id, x);
      ToggleKeepsOthers(Toggle(bookmarks, id), id, x);
    } else {
      ToggleFlips(bookmarks, id);
      ToggleFlips(Toggle(bookmarks, id), id);
    }
  }

  /** ... but not their order: a toggled-off-and-on id comes back at the end. */
  lemma ToggleTwiceMayReorder()
    ensures Toggle(Toggle(["a", "b"], "a"), "a") == ["b", "a"]
  {
    var once := Toggle(["a", "b"], "a");
    assert once == ["b"];
  }
}
