/**
 * The client's history list and the pure list transforms its handlers apply to it:
 * merging a server list with the saved favourite ids, deriving the favourite ids,
 * prepending a new generation, removing an id and flipping a favourite flag.
 */
module HistoryList {
  import opened Api
  import opened Seqs

  /** One entry of the history panel: `{id, prompt, language, code, timestamp, favorite}`. */
  datatype Entry = Entry(id: int, prompt: string, language: string, code: string, timestamp: int, favorite: bool)

  /** The entry built from a server item; the timestamp is the item's `createdAt`. */
  function FromItem(item: Item, favorite: bool): Entry {
    Entry(item.id, item.prompt, item.language, item.code, item.createdAt, favorite)
  }

  /** The server item an entry was built from. */
  function ToItem(e: Entry): Item {
    Item(e.id, e.prompt, e.code, e.language, e.timestamp)
  }

  function ToItems(h: seq<Entry>): (r: seq<Item>)
    ensures |r| == |h|
    ensures forall k :: 0 <= k < |h| ==> r[k] == ToItem(h[k])
  {
    if h == [] then [] else [ToItem(h[0])] + ToItems(h[1..])
  }

  /** No two entries share an id: the server's primary key. */
  ghost predicate UniqueIds(h: seq<Entry>) {
    forall i, j :: 0 <= i < |h| && 0 <= j < |h| && h[i].id == h[j].id ==> i == j
  }

  /**
   * `backendHistory.map(item => ({...item, timestamp, favorite: favoriteIds.includes(item.id)}))`:
   * one entry per server item, in the server's order, favourite exactly when its id was saved.
   */
  function Merge(items: seq<Item>, favoriteIds: seq<int>): (r: seq<Entry>)
    ensures |r| == |items|
    ensures forall k :: 0 <= k < |items| ==>
      ToItem(r[k]) == items[k] && (r[k].favorite <==> items[k].id in favoriteIds)
  {
    if items == [] then [] else [FromItem(items[0], items[0].id in favoriteIds)] + Merge(items[1..], favoriteIds)
  }

  predicate IsFavorite(e: Entry) {
    e.favorite
  }

  function Ids(h: seq<Entry>): (r: seq<int>)
    ensures |r| == |h|
    ensures forall k :: 0 <= k < |h| ==> r[k] == h[k].id
  {
    if h == [] then [] else [h[0].id] + Ids(h[1..])
  }

  /** `history.filter(item => item.favorite).map(item => item.id)`: the list written to local storage. */
  function FavoriteIds(h: seq<Entry>): seq<int> {
    Ids(Filter(h, IsFavorite))
  }

  /** An id is saved as a favourite exactly when some entry with that id is a favourite. */
  lemma FavoriteIdsMembers(h: seq<Entry>, x: int)
    ensures x in FavoriteIds(h) <==> exists k :: 0 <= k < |h| && h[k].id == x && h[k].favorite
  {
    var f := Filter(h, IsFavorite);
    FilterCounts(h, IsFavorite);
    if x in FavoriteIds(h) {
      var j :| 0 <= j < |f| && f[j].id == x;
      assert f[j] in multiset(h);
      var k :| 0 <= k < |h| && h[k] == f[j];
    }
    if exists k :: 0 <= k < |h| && h[k].id == x && h[k].favorite {
      var k :| 0 <= k < |h| && h[k].id == x && h[k].favorite;
      assert h[k] in multiset(f);
      var j :| 0 <= j < |f| && f[j] == h[k];
      assert FavoriteIds(h)[j] == x;
    }
  }

  /** The saved favourite ids come in the order their entries have in the history. */
  lemma FavoriteIdsInOrder(h: seq<Entry>)
    ensures IsSubsequence(Filter(h, IsFavorite), h)
    ensures IsSubsequence(FavoriteIds(h), Ids(h))
  {
    FilterOrder(h, IsFavorite);
    IdsKeepOrder(Filter(h, IsFavorite), h);
  }

  /** Taking the ids keeps a subsequence a subsequence. */
  lemma {:induction false} IdsKeepOrder(a: seq<Entry>, b: seq<Entry>)
    requires IsSubsequence(a, b)
    ensures IsSubsequence(Ids(a), Ids(b))
    decreases |b|
  {
    if a != [] {
      assert Ids(b)[1..] == Ids(b[1..]);
      if a[0] == b[0] && IsSubsequence(a[1..], b[1..]) {
        IdsKeepOrder(a[1..], b[1..]);
        assert Ids(a)[1..] == Ids(a[1..]);
      } else {
        IdsKeepOrder(a, b[1..]);
      }
    }
  }

  /**
   * Merging a list with its own derived favourite ids reproduces it, favourite flags included,
   * provided ids are unique (as the server's primary key makes them).
   */
  lemma {:induction false} MergeRestoresFavorites(h: seq<Entry>)
    requires UniqueIds(h)
    ensures Merge(ToItems(h), FavoriteIds(h)) == h
  {
    var r := Merge(ToItems(h), FavoriteIds(h));
    forall k | 0 <= k < |h| ensures r[k] == h[k] {
      FavoriteIdsMembers(h, h[k].id);
    }
  }

  /** A new generation goes to the front; the previous list follows it unchanged. */
  function Prepend(item: Item, h: seq<Entry>): (r: seq<Entry>)
    ensures |r| == |h| + 1 && r[1..] == h
    ensures r[0] == FromItem(item, false) && !r[0].favorite
  {
    [FromItem(item, false)] + h
  }

  /** Prepending a non-favourite entry leaves the saved favourite ids as they were. */
  lemma PrependKeepsFavoriteIds(item: Item, h: seq<Entry>)
    ensures FavoriteIds(Prepend(item, h)) == FavoriteIds(h)
  {
    var r := Prepend(item, h);
    assert r[1..] == h;
  }

  /** `prev.filter(item => item.id !== id)`. */
  function RemoveById(h: seq<Entry>, id: int): (r: seq<Entry>)
    ensures forall k :: 0 <= k < |r| ==> r[k].id != id
  {
    Filter(h, (e: Entry) => e.id != id)
  }

  /**
   * Removal keeps every entry with another id, as often as it occurred, in its original
   * relative order, and drops nothing else; a list without the id is returned unchanged.
   */
  lemma RemoveByIdSpec(h: seq<Entry>, id: int)
    ensures forall e :: multiset(RemoveById(h, id))[e] == if e.id == id then 0 else multiset(h)[e]
    ensures IsSubsequence(RemoveById(h, id), h)
    ensures (forall k :: 0 <= k < |h| ==> h[k].id != id) ==> RemoveById(h, id) == h
  {
    var keep := (e: Entry) => e.id != id;
    FilterCounts(h, keep);
    FilterOrder(h, keep);
    if forall k :: 0 <= k < |h| ==> h[k].id != id {
      FilterKeepsAll(h, keep);
    }
  }

  /** Removing the same id again changes nothing. */
  lemma RemoveByIdIdempotent(h: seq<Entry>, id: int)
    ensures RemoveById(RemoveById(h, id), id) == RemoveById(h, id)
  {
    RemoveByIdSpec(RemoveById(h, id), id);
  }

  /** `prev.map(item => item.id === id ? {...item, favorite: !item.favorite} : item)`. */
  function ToggleFavorite(h: seq<Entry>, id: int): (r: seq<Entry>)
    ensures |r| == |h|
    ensures forall k :: 0 <= k < |h| ==>
      if h[k].id == id then r[k] == h[k].(favorite := !h[k].favorite) else r[k] == h[k]
  {
    if h == [] then []
    else
      var e := if h[0].id == id then h[0].(favorite := !h[0].favorite) else h[0];
      [e] + ToggleFavorite(h[1..], id)
  }

  /** Toggling the same id twice gives back the original list. */
  lemma ToggleFavoriteTwice(h: seq<Entry>, id: int)
    ensures ToggleFavorite(ToggleFavorite(h, id), id) == h
  {
  }

  /** After a toggle, an id other than the toggled one is a favourite exactly when it was before. */
  lemma ToggleFavoriteOtherIds(h: seq<Entry>, id: int, x: int)
    requires x != id
    ensures x in FavoriteIds(ToggleFavorite(h, id)) <==> x in FavoriteIds(h)
  {
    var t := ToggleFavorite(h, id);
    FavoriteIdsMembers(h, x);
    FavoriteIdsMembers(t, x);
    if x in FavoriteIds(h) {
      var k :| 0 <= k < |h| && h[k].id == x && h[k].favorite;
      assert t[k].id == x && t[k].favorite;
    }
    if x in FavoriteIds(t) {
      var k :| 0 <= k < |t| && t[k].id == x && t[k].favorite;
      assert h[k].id == x && h[k].favorite;
    }
  }

  /** With unique ids, a toggle flips whether the toggled id is saved as a favourite. */
  lemma ToggleFavoriteFlips(h: seq<Entry>, k: nat)
    requires UniqueIds(h) && k < |h|
    ensures h[k].id in FavoriteIds(ToggleFavorite(h, h[k].id)) <==> h[k].id !in FavoriteIds(h)
  {
    var id := h[k].id;
    var t := ToggleFavorite(h, id);
    FavoriteIdsMembers(h, id);
    FavoriteIdsMembers(t, id);
    assert t[k].favorite == !h[k].favorite;
  }
}
