/** `RecommendationService`: shows ranked for a user from the genres of
    the user's favourites. */
module Recommendations {
  import opened Wrappers
  import opened Query
  import opened Pagination
  import opened Ordering
  import opened Catalog

  /** `favoriteShowIds`: none when no user has the id. */
  function FavoriteIds(favorites: map<string, seq<int>>, userId: string): seq<int>
  {
    if userId in favorites then favorites[userId] else []
  }

  /** `favoriteGenres`: the genre ids of the favourite shows, as a set. */
  function FavoriteGenres(shows: seq<Show>, favIds: seq<int>): set<int>
  {
    set s, g | s in shows && s.id in favIds && g in s.genres :: g
  }

  /** `s.Genres.Count(g => favoriteGenres.Contains(g.Id))`. */
  function SharedGenreCount(links: seq<int>, favGenres: set<int>): (n: nat)
    ensures n <= |links|
    ensures n > 0 <==> exists g :: g in links && g in favGenres
  {
    if links == [] then 0
    else
      assert links[0] in links;
      assert forall g :: g in links <==> g == links[0] || g in links[1..];
      (if links[0] in favGenres then 1 else 0) + SharedGenreCount(links[1..], favGenres)
  }

  /** `s.FavoritedByUsers.Count()`. */
  function FavoritedByCount(favorites: map<string, seq<int>>, showId: int): nat
  {
    |set u | u in favorites && showId in favorites[u]|
  }

  function Score(favorites: map<string, seq<int>>, favGenres: set<int>, s: Show): int
  {
    SharedGenreCount(s.genres, favGenres) + FavoritedByCount(favorites, s.id)
  }

  /** The `Where` filter: not a favourite, and some genre in common. */
  predicate IsCandidate(s: Show, favIds: seq<int>, favGenres: set<int>)
  {
    s.id !in favIds && exists g :: g in s.genres && g in favGenres
  }

  function Candidates(shows: seq<Show>, favIds: seq<int>, favGenres: set<int>): (r: seq<Show>)
    ensures forall s :: s in r <==> s in shows && IsCandidate(s, favIds, favGenres)
  {
    if shows == [] then []
    else (if IsCandidate(shows[0], favIds, favGenres) then [shows[0]] else [])
         + Candidates(shows[1..], favIds, favGenres)
  }

  /** The `ThenBy` key: release date descending for a value no member
      names, and for `(ReleaseDate, desc)`. */
  function SecondaryOrder(sortBy: Option<ShowSortBy>, order: SortOrder): (Show, Show) -> bool
  {
    match sortBy
    case Some(Title) => ByText((s: Show) => s.title, order == Desc)
    case Some(ReleaseDate) => ByInt((s: Show) => s.releaseDate, order == Desc)
    case None => ByInt((s: Show) => s.releaseDate, true)
  }

  /** `OrderByDescending(Score)` then the secondary key. */
  function RankOrder(favorites: map<string, seq<int>>, favGenres: set<int>, sortBy: Option<ShowSortBy>,
                     order: SortOrder): (Show, Show) -> bool
  {
    ThenBy((s: Show) => Score(favorites, favGenres, s), SecondaryOrder(sortBy, order))
  }

  /** `GetRecommendationsForUserAsync`; `None` is a null user id. */
  function GetRecommendations(shows: seq<Show>, favorites: map<string, seq<int>>, userId: Option<string>,
                              page: int32, pageSize: int32, sortBy: Option<ShowSortBy>, order: SortOrder): seq<Show>
  {
    if userId.None? || userId.value == "" then []
    else
      var favIds := FavoriteIds(favorites, userId.value);
      if favIds == [] then []
      else
        var favGenres := FavoriteGenres(shows, favIds);
        PageItems(Sort(Candidates(shows, favIds, favGenres), RankOrder(favorites, favGenres, sortBy, order)),
                  page as int, pageSize as int)
  }

  // ---------------------------------------------------------------------
  // Properties

  /** A null or empty user id, or a user without favourites, gets nothing. */
  lemma NothingWithoutFavorites(shows: seq<Show>, favorites: map<string, seq<int>>, userId: Option<string>,
                                page: int32, pageSize: int32, sortBy: Option<ShowSortBy>, order: SortOrder)
    requires userId.None? || userId.value == "" || FavoriteIds(favorites, userId.value) == []
    ensures GetRecommendations(shows, favorites, userId, page, pageSize, sortBy, order) == []
  {
  }

  lemma SecondaryOrderIsTotalPreorder(sortBy: Option<ShowSortBy>, order: SortOrder)
    ensures TotalPreorder(SecondaryOrder(sortBy, order))
  {
    match sortBy
    case Some(Title) => ByTextIsTotalPreorder((s: Show) => s.title, order == Desc);
    case Some(ReleaseDate) => ByIntIsTotalPreorder((s: Show) => s.releaseDate, order == Desc);
    case None => ByIntIsTotalPreorder((s: Show) => s.releaseDate, true);
  }

  /** With no key given the key is `Title`: equal scores are ordered by
      title, descending exactly when `desc` is asked for. */
  lemma UnsetSecondaryKeyIsTitle(order: SortOrder, a: Show, b: Show)
    requires StringLe(a.title, b.title) && a.title != b.title
    ensures SecondaryOrder(UnsetShowSortBy, order)(b, a) <==> order == Desc
    ensures SecondaryOrder(UnsetShowSortBy, order)(a, b) <==> order == Asc
  {
    if StringLe(b.title, a.title) {
      StringLeAntisymmetric(a.title, b.title);
    }
  }

  /** For a user with favourites the result is one page of the candidate
      shows, in an order the database may produce for the ranking. */
  lemma RecommendationsArePageOfRanking(shows: seq<Show>, favorites: map<string, seq<int>>, userId: string,
                                        page: int32, pageSize: int32, sortBy: Option<ShowSortBy>, order: SortOrder)
    requires userId != "" && FavoriteIds(favorites, userId) != []
    ensures var favIds := FavoriteIds(favorites, userId);
            var favGenres := FavoriteGenres(shows, favIds);
      exists o :: IsOrderingOf(o, Candidates(shows, favIds, favGenres), RankOrder(favorites, favGenres, sortBy, order))
        && GetRecommendations(shows, favorites, Some(userId), page, pageSize, sortBy, order)
             == PageItems(o, page as int, pageSize as int)
  {
    var favIds := FavoriteIds(favorites, userId);
    var favGenres := FavoriteGenres(shows, favIds);
    var le := RankOrder(favorites, favGenres, sortBy, order);
    SecondaryOrderIsTotalPreorder(sortBy, order);
    ThenByIsTotalPreorder((s: Show) => Score(favorites, favGenres, s), SecondaryOrder(sortBy, order));
    SortIsSortedPermutation(Candidates(shows, favIds, favGenres), le);
    assert IsOrderingOf(Sort(Candidates(shows, favIds, favGenres), le), Candidates(shows, favIds, favGenres), le);
  }

  /** Every recommended show is a show of the catalogue, is not among the
      user's favourites, shares a genre with one of them, and so scores at
      least 1; along the result the score never increases, and equal scores
      follow the secondary order. */
  lemma RecommendationsRanked(shows: seq<Show>, favorites: map<string, seq<int>>, userId: string,
                              page: int32, pageSize: int32, sortBy: Option<ShowSortBy>, order: SortOrder)
    requires userId != ""
    ensures var r := GetRecommendations(shows, favorites, Some(userId), page, pageSize, sortBy, order);
            var favIds := FavoriteIds(favorites, userId);
            var favGenres := FavoriteGenres(shows, favIds);
      && (forall s :: s in r ==> s in shows && s.id !in favIds)
      && (forall s :: s in r ==> exists g, f :: g in s.genres && f in shows && f.id in favIds && g in f.genres)
      && (forall s :: s in r ==> Score(favorites, favGenres, s) >= 1)
      && (forall i, j :: 0 <= i < j < |r| ==> Score(favorites, favGenres, r[i]) >= Score(favorites, favGenres, r[j]))
      && (forall i, j :: 0 <= i < j < |r| && Score(favorites, favGenres, r[i]) == Score(favorites, favGenres, r[j]) ==>
            SecondaryOrder(sortBy, order)(r[i], r[j]))
    ensures |GetRecommendations(shows, favorites, Some(userId), page, pageSize, sortBy, order)| <=
              if pageSize > 0 then pageSize as int else 0
  {
    var favIds := FavoriteIds(favorites, userId);
    if favIds != [] {
      var favGenres := FavoriteGenres(shows, favIds);
      var cands := Candidates(shows, favIds, favGenres);
      var le := RankOrder(favorites, favGenres, sortBy, order);
      var o := Sort(cands, le);
      SecondaryOrderIsTotalPreorder(sortBy, order);
      ThenByIsTotalPreorder((s: Show) => Score(favorites, favGenres, s), SecondaryOrder(sortBy, order));
      SortIsSortedPermutation(cands, le);
      var r := PageItems(o, page as int, pageSize as int);
      PageOfSorted(o, page as int, pageSize as int, le);
      ThenBySortedMeans(r, (s: Show) => Score(favorites, favGenres, s), SecondaryOrder(sortBy, order));
      forall s | s in r
        ensures s in shows && IsCandidate(s, favIds, favGenres)
      {
        assert s in multiset(o);
      }
      ToPaginatedDtoShape(o, page, pageSize);
    }
  }

  /** The score counts the show's genre links into favourite genres. */
  lemma SharedGenreCountIsFilterLength(links: seq<int>, favGenres: set<int>)
    ensures SharedGenreCount(links, favGenres) == |FilterIn(links, favGenres)|
  {
  }
}
