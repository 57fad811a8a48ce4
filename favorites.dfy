/** `FavoritesService`: each user's favourite shows. */
module Favorites {
  import opened Wrappers
  import opened Query
  import opened Pagination
  import opened Ordering
  import opened Catalog

  const UserNotFound := "User not found"
  const ShowNotFound := "Show not found"
  const ShowNotInFavorites := "Show not in favorites"

  /** `AddFavoriteAsync`: the new favourites, or the exception. */
  function AddFavorite(favorites: map<string, seq<int>>, shows: seq<Show>, userId: string, showId: int)
    : Result<map<string, seq<int>>>
  {
    if userId !in favorites then Err(UserNotFound)
    else if showId !in ShowIds(shows) then Err(ShowNotFound)
    else Ok(favorites[userId := AddLink(favorites[userId], showId)])
  }

  /** `RemoveFavoriteAsync`: unlike the show links, removing a show that
      is not a favourite is an error. */
  function RemoveFavorite(favorites: map<string, seq<int>>, userId: string, showId: int)
    : Result<map<string, seq<int>>>
  {
    if userId !in favorites then Err(UserNotFound)
    else if showId !in favorites[userId] then Err(ShowNotInFavorites)
    else Ok(favorites[userId := RemoveLink(favorites[userId], showId)])
  }

  /** The shows whose `FavoritedByUsers` include the user, in table order. */
  function FavoriteShows(shows: seq<Show>, favs: seq<int>): (r: seq<Show>)
    ensures forall s :: s in r <==> s in shows && s.id in favs
  {
    if shows == [] then []
    else (if shows[0].id in favs then [shows[0]] else []) + FavoriteShows(shows[1..], favs)
  }

  /** The `switch` on sort key and order; title ascending for a value no
      member names. */
  function FavoriteOrder(sortBy: Option<ShowSortBy>, order: SortOrder): (Show, Show) -> bool
  {
    match sortBy
    case Some(ReleaseDate) => ByInt((s: Show) => s.releaseDate, order == Desc)
    case Some(Title) => ByText((s: Show) => s.title, order == Desc)
    case None => ByText((s: Show) => s.title, false)
  }

  /** `GetFavoritesAsync`. */
  function GetFavorites(favorites: map<string, seq<int>>, shows: seq<Show>, userId: string, page: int32,
                        pageSize: int32, sortBy: Option<ShowSortBy>, order: SortOrder): Result<seq<Show>>
  {
    if userId !in favorites then Err(UserNotFound)
    else Ok(PageItems(Sort(FavoriteShows(shows, favorites[userId]), FavoriteOrder(sortBy, order)),
                      page as int, pageSize as int))
  }

  // ---------------------------------------------------------------------
  // Properties

  /** An unknown user is reported before an unknown show, and either error
      leaves every favourite as it was. */
  lemma AddFavoriteErrors(favorites: map<string, seq<int>>, shows: seq<Show>, userId: string, showId: int)
    ensures userId !in favorites ==> AddFavorite(favorites, shows, userId, showId) == Err(UserNotFound)
    ensures userId in favorites && showId !in ShowIds(shows) ==>
              AddFavorite(favorites, shows, userId, showId) == Err(ShowNotFound)
    ensures AddFavorite(favorites, shows, userId, showId).Ok? <==>
              userId in favorites && showId in ShowIds(shows)
  {
  }

  /** A successful add makes the show a favourite of that user only, once;
      adding an existing favourite changes nothing. */
  lemma AddFavoriteEffect(favorites: map<string, seq<int>>, shows: seq<Show>, userId: string, showId: int)
    requires AddFavorite(favorites, shows, userId, showId).Ok?
    ensures var r := AddFavorite(favorites, shows, userId, showId).value;
      && r.Keys == favorites.Keys
      && showId in r[userId]
      && (showId in favorites[userId] ==> r == favorites)
      && (showId !in favorites[userId] ==> r[userId] == favorites[userId] + [showId])
      && (forall u :: u in favorites && u != userId ==> r[u] == favorites[u])
      && AddFavorite(r, shows, userId, showId) == Ok(r)
  {
    var r := AddFavorite(favorites, shows, userId, showId).value;
    AddLinkSpec(favorites[userId], showId);
    if showId in favorites[userId] {
      assert r == favorites;
    } else {
      assert r[userId := r[userId]] == r;
    }
  }

  /** An unknown user, then a show that is not a favourite, is an error;
      otherwise exactly that show leaves the user's favourites, which keep
      their order. */
  lemma RemoveFavoriteSpec(favorites: map<string, seq<int>>, shows: seq<Show>, userId: string, showId: int)
    requires FavoritesValid(favorites, shows)
    ensures userId !in favorites ==> RemoveFavorite(favorites, userId, showId) == Err(UserNotFound)
    ensures userId in favorites && showId !in favorites[userId] ==>
              RemoveFavorite(favorites, userId, showId) == Err(ShowNotInFavorites)
    ensures RemoveFavorite(favorites, userId, showId).Ok? ==>
      var r := RemoveFavorite(favorites, userId, showId).value;
      var k := FirstIndex(favorites[userId], showId);
      && r.Keys == favorites.Keys
      && r[userId] == favorites[userId][..k] + favorites[userId][k + 1..]
      && showId !in r[userId]
      && (forall x :: x != showId ==> (x in r[userId] <==> x in favorites[userId]))
      && (forall u :: u in favorites && u != userId ==> r[u] == favorites[u])
      && RemoveFavorite(r, userId, showId) == Err(ShowNotInFavorites)
  {
    if userId in favorites && showId in favorites[userId] {
      RemoveLinkSpec(favorites[userId], showId);
      RemoveLinkOnSet(favorites[userId], showId);
    }
  }

  /** Listing fails only for an unknown user; otherwise it is one page of
      exactly that user's favourite shows, in an order the database may
      produce for the requested sort. */
  lemma GetFavoritesSpec(favorites: map<string, seq<int>>, shows: seq<Show>, userId: string, page: int32,
                         pageSize: int32, sortBy: Option<ShowSortBy>, order: SortOrder)
    ensures var r := GetFavorites(favorites, shows, userId, page, pageSize, sortBy, order);
      && (r.Err? <==> userId !in favorites)
      && (r.Err? ==> r.message == UserNotFound)
      && (r.Ok? ==> exists o :: IsOrderingOf(o, FavoriteShows(shows, favorites[userId]), FavoriteOrder(sortBy, order))
                              && r.value == PageItems(o, page as int, pageSize as int))
  {
    if userId in favorites {
      var le := FavoriteOrder(sortBy, order);
      FavoriteOrderIsTotalPreorder(sortBy, order);
      SortIsSortedPermutation(FavoriteShows(shows, favorites[userId]), le);
      assert IsOrderingOf(Sort(FavoriteShows(shows, favorites[userId]), le),
                          FavoriteShows(shows, favorites[userId]), le);
    }
  }

  lemma FavoriteOrderIsTotalPreorder(sortBy: Option<ShowSortBy>, order: SortOrder)
    ensures TotalPreorder(FavoriteOrder(sortBy, order))
  {
    match sortBy
    case Some(ReleaseDate) => ByIntIsTotalPreorder((s: Show) => s.releaseDate, order == Desc);
    case Some(Title) => ByTextIsTotalPreorder((s: Show) => s.title, order == Desc);
    case None => ByTextIsTotalPreorder((s: Show) => s.title, false);
  }

  /** With no key given the key is `Title`: titles sort descending exactly
      when `desc` is asked for. */
  lemma UnsetFavoriteKeyIsTitle(order: SortOrder, a: Show, b: Show)
    requires StringLe(a.title, b.title) && a.title != b.title
    ensures FavoriteOrder(UnsetShowSortBy, order)(b, a) <==> order == Desc
    ensures FavoriteOrder(UnsetShowSortBy, order)(a, b) <==> order == Asc
  {
    if StringLe(b.title, a.title) {
      StringLeAntisymmetric(a.title, b.title);
    }
  }

  /** Changing one user's favourites to valid ones keeps them valid. */
  lemma UpdateFavoritesKeepsValid(favorites: map<string, seq<int>>, shows: seq<Show>, userId: string,
                                  favs: seq<int>)
    requires FavoritesValid(favorites, shows)
    requires NoDups(favs) && forall x :: x in favs ==> x in ShowIds(shows)
    ensures FavoritesValid(favorites[userId := favs], shows)
  {
  }

  // ---------------------------------------------------------------------
  // The service

  class FavoritesService {
    const db: ShowStore

    constructor (db: ShowStore)
      ensures this.db == db
    {
      this.db := db;
    }

    method AddFavoriteAsync(userId: string, showId: int) returns (r: Outcome)
      requires db.Valid()
      modifies db`favorites
      ensures db.Valid()
      ensures var res := AddFavorite(old(db.favorites), db.shows, userId, showId);
        && (res.Ok? ==> r == Pass && db.favorites == res.value)
        && (res.Err? ==> r == Fail(res.message) && db.favorites == old(db.favorites))
    {
      if userId !in db.favorites {
        return Fail(UserNotFound);
      }
      if showId !in ShowIds(db.shows) {
        return Fail(ShowNotFound);
      }
      var favs := db.favorites[userId];
      if showId !in favs {
        AddLinkSpec(favs, showId);
        UpdateFavoritesKeepsValid(db.favorites, db.shows, userId, favs + [showId]);
        db.favorites := db.favorites[userId := favs + [showId]];
      } else {
        assert db.favorites[userId := favs] == db.favorites;
      }
      r := Pass;
    }

    method RemoveFavoriteAsync(userId: string, showId: int) returns (r: Outcome)
      requires db.Valid()
      modifies db`favorites
      ensures db.Valid()
      ensures var res := RemoveFavorite(old(db.favorites), userId, showId);
        && (res.Ok? ==> r == Pass && db.favorites == res.value)
        && (res.Err? ==> r == Fail(res.message) && db.favorites == old(db.favorites))
    {
      if userId !in db.favorites {
        return Fail(UserNotFound);
      }
      var favs := db.favorites[userId];
      if showId !in favs {
        return Fail(ShowNotInFavorites);
      }
      RemoveLinkOnSet(favs, showId);
      UpdateFavoritesKeepsValid(db.favorites, db.shows, userId, RemoveLink(favs, showId));
      db.favorites := db.favorites[userId := RemoveLink(favs, showId)];
      r := Pass;
    }
  }
}
