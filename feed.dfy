/**
 * The feed list of components/RSSFeed.tsx: the favourites kept in a
 * JavaScript `Set` and saved in local storage, the search over titles, and
 * the favourites tab derived from both.
 */
module Feed {
  import opened Text
  import opened Lists
  import opened OrderedSets
  import opened Storage

  /** One entry of the JSON feed (`RSSItem`). */
  datatype Item = Item(id: string, title: string, url: string, contentHtml: string, datePublished: string)

  /** The local-storage key of the favourites list. */
  const FavoritesKey: string := "Favorites"

  const UnknownDate: string := "Date inconnue"

  /** `isFavorite(item)`. */
  predicate IsFavorite(favorites: seq<string>, item: Item) {
    item.id in favorites
  }

  /** The search test: the lower-cased title includes the lower-cased search text. */
  predicate TitleMatches(searchText: string, item: Item) {
    Contains(Lower(item.title), Lower(searchText))
  }

  /** `filteredItems`. */
  function FilteredItems(items: seq<Item>, searchText: string): (r: seq<Item>)
    ensures |r| <= |items|
  {
    Filter(items, (item: Item) => TitleMatches(searchText, item))
  }

  /** `filteredFavorites`: the shown items that are favourites. */
  function FilteredFavorites(items: seq<Item>, searchText: string, favorites: seq<string>): (r: seq<Item>)
    ensures |r| <= |FilteredItems(items, searchText)|
  {
    Filter(FilteredItems(items, searchText), (item: Item) => IsFavorite(favorites, item))
  }

  /** The set `toggleFavorite` computes from the previous one. */
  function Toggled(favorites: seq<string>, id: string): (r: seq<string>)
    ensures id in r <==> id !in favorites
    ensures forall other :: other != id ==> (other in r <==> other in favorites)
    ensures NoDuplicates(favorites) ==> NoDuplicates(r)
  {
    if id in favorites then Delete(favorites, id) else Add(favorites, id)
  }

  /**
   * `formatDate`. Both arguments must be non-empty; otherwise the placeholder
   * is returned. The clock- and locale-dependent rendering of a date is the
   * parameter `dated`.
   */
  function FormatDate(dateString: string, timeString: string, dated: (string, string) -> string): (r: string)
    ensures dateString == [] || timeString == [] ==> r == UnknownDate
    ensures dateString != [] && timeString != [] ==> r == dated(dateString, timeString)
  {
    if dateString == [] || timeString == [] then UnknownDate else dated(dateString, timeString)
  }

  /** Toggling twice gives back the same set; an id that was absent leaves no trace at all. */
  lemma ToggleTwice(favorites: seq<string>, id: string)
    requires NoDuplicates(favorites)
    ensures forall x :: x in Toggled(Toggled(favorites, id), id) <==> x in favorites
    ensures id !in favorites ==> Toggled(Toggled(favorites, id), id) == favorites
    ensures id in favorites ==> Toggled(Toggled(favorites, id), id) == Delete(favorites, id) + [id]
  {
    if id !in favorites {
      DeleteAfterAdd(favorites, id);
    }
  }

  /** `filteredItems` keeps, in their order, exactly the items whose title matches, every copy of them. */
  lemma FilteredItemsExact(items: seq<Item>, searchText: string)
    ensures IsSubsequence(FilteredItems(items, searchText), items)
    ensures forall x :: x in FilteredItems(items, searchText) <==> x in items && TitleMatches(searchText, x)
    ensures forall x :: multiset(FilteredItems(items, searchText))[x] ==
                        if TitleMatches(searchText, x) then multiset(items)[x] else 0
  {
    var p := (item: Item) => TitleMatches(searchText, item);
    FilterIsSubsequence(items, p);
    forall x ensures x in FilteredItems(items, searchText) <==> x in items && TitleMatches(searchText, x) {
      FilterMembership(items, p, x);
    }
    forall x ensures multiset(FilteredItems(items, searchText))[x] ==
                     if TitleMatches(searchText, x) then multiset(items)[x] else 0 {
      FilterCounts(items, p, x);
    }
  }

  /** An empty search shows every item. */
  lemma EmptySearchKeepsAll(items: seq<Item>)
    ensures FilteredItems(items, "") == items
  {
    forall item: Item ensures TitleMatches("", item) {
      ContainsEmpty(Lower(item.title));
    }
    FilterKeepsAll(items, (item: Item) => TitleMatches("", item));
  }

  /** The search ignores case: two search texts with the same lower case show the same items. */
  lemma SearchIgnoresCase(items: seq<Item>, a: string, b: string)
    requires Lower(a) == Lower(b)
    ensures FilteredItems(items, a) == FilteredItems(items, b)
  {
    FilterCongruent(items, (item: Item) => TitleMatches(a, item), (item: Item) => TitleMatches(b, item));
  }

  /** The search text may be given in either case, in particular already lower-cased. */
  lemma SearchLowered(items: seq<Item>, searchText: string)
    ensures FilteredItems(items, Lower(searchText)) == FilteredItems(items, searchText)
  {
    LowerIdempotent(searchText);
    SearchIgnoresCase(items, Lower(searchText), searchText);
  }

  /**
   * The favourites tab shows, in feed order, exactly the favourite items that
   * match the search; it is the same as searching among the favourites.
   */
  lemma FilteredFavoritesExact(items: seq<Item>, searchText: string, favorites: seq<string>)
    ensures IsSubsequence(FilteredFavorites(items, searchText, favorites), FilteredItems(items, searchText))
    ensures IsSubsequence(FilteredFavorites(items, searchText, favorites), items)
    ensures forall x :: x in FilteredFavorites(items, searchText, favorites) <==>
                        x in items && TitleMatches(searchText, x) && IsFavorite(favorites, x)
    ensures FilteredFavorites(items, searchText, favorites) ==
            FilteredItems(Filter(items, (item: Item) => IsFavorite(favorites, item)), searchText)
  {
    var m := (item: Item) => TitleMatches(searchText, item);
    var f := (item: Item) => IsFavorite(favorites, item);
    var both := (item: Item) => TitleMatches(searchText, item) && IsFavorite(favorites, item);
    var both' := (item: Item) => IsFavorite(favorites, item) && TitleMatches(searchText, item);
    FilterIsSubsequence(FilteredItems(items, searchText), f);
    FilterFilter(items, m, f, both);
    FilterFilter(items, f, m, both');
    FilterCongruent(items, both, both');
    FilterIsSubsequence(items, both);
    forall x ensures x in FilteredFavorites(items, searchText, favorites) <==>
                     x in items && TitleMatches(searchText, x) && IsFavorite(favorites, x) {
      FilterMembership(items, both, x);
    }
  }

  /** The state of the `RSSFeed` component that the favourites code changes. */
  class FeedView {
    var items: seq<Item>
    var favorites: seq<string>
    var searchText: string
    const storage: LocalStorage

    /** A `Set` holds no element twice. */
    ghost predicate Valid()
      reads this
    {
      NoDuplicates(favorites)
    }

    /** The initial state: no items, no favourites, empty search. */
    constructor (storage: LocalStorage)
      ensures Valid()
      ensures items == [] && favorites == [] && searchText == [] && this.storage == storage
    {
      items := [];
      favorites := [];
      searchText := [];
      this.storage := storage;
    }

    /** `saveFavorites`: `Array.from(favorites)` stored under `'Favorites'`. */
    method SaveFavorites(favs: seq<string>)
      modifies storage
      ensures storage.entries == old(storage.entries)[FavoritesKey := favs]
    {
      storage.SetItem(FavoritesKey, favs);
    }

    /** `loadFavorites`: a stored list replaces the favourites; no stored list changes nothing. */
    method LoadFavorites()
      requires Valid()
      modifies this
      ensures Valid()
      ensures FavoritesKey !in storage.entries ==> favorites == old(favorites)
      ensures FavoritesKey in storage.entries ==> favorites == Build(storage.entries[FavoritesKey])
      ensures FavoritesKey in storage.entries ==>
                forall x :: x in favorites <==> x in storage.entries[FavoritesKey]
      ensures items == old(items) && searchText == old(searchText)
    {
      var saved := storage.GetItem(FavoritesKey);
      if saved.Some? {
        favorites := Build(saved.value);
      }
    }

    /**
     * `toggleFavorite`: copy the set, delete or add `item.id`, save the copy,
     * and make it the new state.
     */
    method ToggleFavorite(item: Item) returns (newFavorites: seq<string>)
      requires Valid()
      modifies this, storage
      ensures Valid()
      ensures favorites == newFavorites == Toggled(old(favorites), item.id)
      ensures item.id in favorites <==> item.id !in old(favorites)
      ensures forall other :: other != item.id ==> (other in favorites <==> other in old(favorites))
      ensures storage.entries == old(storage.entries)[FavoritesKey := newFavorites]
      ensures items == old(items) && searchText == old(searchText)
    {
      newFavorites := favorites;
      if item.id in newFavorites {
        newFavorites := Delete(newFavorites, item.id);
      } else {
        newFavorites := Add(newFavorites, item.id);
      }
      SaveFavorites(newFavorites);
      favorites := newFavorites;
    }
  }

  /** After a toggle, loading from storage gives back exactly the toggled set. */
  method ToggleThenReload(view: FeedView, item: Item)
    requires view.Valid()
    modifies view, view.storage
    ensures view.Valid()
    ensures view.favorites == Toggled(old(view.favorites), item.id)
    ensures FavoritesKey in view.storage.entries && view.storage.entries[FavoritesKey] == view.favorites
  {
    var saved := view.ToggleFavorite(item);
    view.LoadFavorites();
    BuildOfDistinct(saved);
  }

  /** Saving a set and loading it back reproduces it, order included, as `Array.from` and `new Set` do. */
  method SaveThenLoad(view: FeedView, favs: seq<string>)
    requires view.Valid() && NoDuplicates(favs)
    modifies view, view.storage
    ensures view.Valid()
    ensures view.favorites == favs
    ensures view.storage.entries == old(view.storage.entries)[FavoritesKey := favs]
    ensures view.items == old(view.items) && view.searchText == old(view.searchText)
  {
    view.SaveFavorites(favs);
    view.LoadFavorites();
    BuildOfDistinct(favs);
  }
}
