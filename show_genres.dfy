/** `ShowGenresService`: the genres linked to a show. */
module ShowGenres {
  import opened Wrappers
  import opened Query
  import opened Pagination
  import opened Ordering
  import opened Catalog

  const ShowNotFound := "Show not found"
  const GenreNotFound := "Genre not found"
  const GenresNotFound := "One or more genres not found."

  /** `AddGenreToShowAsync`: the new show table, or the exception. */
  function AddGenreToShow(shows: seq<Show>, genres: seq<Genre>, showId: int, genreId: int): Result<seq<Show>>
  {
    match ShowIndex(shows, showId)
    case None => Err(ShowNotFound)
    case Some(i) =>
      if genreId !in GenreIds(genres) then Err(GenreNotFound)
      else Ok(shows[i := shows[i].(genres := AddLink(shows[i].genres, genreId))])
  }

  /** `RemoveGenreFromShowAsync`. */
  function RemoveGenreFromShow(shows: seq<Show>, showId: int, genreId: int): Result<seq<Show>>
  {
    match ShowIndex(shows, showId)
    case None => Err(ShowNotFound)
    case Some(i) => Ok(shows[i := shows[i].(genres := RemoveLink(shows[i].genres, genreId))])
  }

  /** `Genres.Where(g => genreIds.Contains(g.Id))`, as ids in table order. */
  function FoundGenreIds(genres: seq<Genre>, ids: set<int>): (r: seq<int>)
    ensures forall x :: x in r <==> x in ids && x in GenreIds(genres)
  {
    if genres == [] then []
    else (if genres[0].id in ids then [genres[0].id] else []) + FoundGenreIds(genres[1..], ids)
  }

  /** `ReplaceGenresForShowAsync`: the genres found must be as many as the
      distinct ids requested. */
  function ReplaceGenresForShow(shows: seq<Show>, genres: seq<Genre>, showId: int, genreIds: seq<int>): Result<seq<Show>>
  {
    match ShowIndex(shows, showId)
    case None => Err(ShowNotFound)
    case Some(i) =>
      var found := FoundGenreIds(genres, set x | x in genreIds);
      if |found| != |Distinct(genreIds)| then Err(GenresNotFound)
      else Ok(shows[i := shows[i].(genres := found)])
  }

  /** The genres whose `Shows` include show `s`, in table order. */
  function LinkedGenres(genres: seq<Genre>, s: Show): (r: seq<Genre>)
    ensures forall g :: g in r <==> g in genres && g.id in s.genres
  {
    if genres == [] then []
    else (if genres[0].id in s.genres then [genres[0]] else []) + LinkedGenres(genres[1..], s)
  }

  function Names(gs: seq<Genre>): (r: seq<string>)
    ensures |r| == |gs| && forall k :: 0 <= k < |gs| ==> r[k] == gs[k].name
  {
    seq(|gs|, k requires 0 <= k < |gs| => gs[k].name)
  }

  /** The `switch` on sort key and order: descending only for
      `(Name, desc)`; every other combination sorts by name ascending. */
  function GenreOrder(sortBy: Option<GenreSortBy>, order: SortOrder): (Genre, Genre) -> bool
  {
    ByText((g: Genre) => g.name, sortBy == Some(GenreName) && order == Desc)
  }

  /** `GetGenresForShowAsync`: the names of the show's genres, sorted and
      paged. */
  function GetGenresForShow(shows: seq<Show>, genres: seq<Genre>, showId: int, page: int32,
                            pageSize: int32, sortBy: Option<GenreSortBy>, order: SortOrder): Result<seq<string>>
  {
    match ShowIndex(shows, showId)
    case None => Err(ShowNotFound)
    case Some(i) =>
      Ok(Names(PageItems(Sort(LinkedGenres(genres, shows[i]), GenreOrder(sortBy, order)), page as int, pageSize as int)))
  }

  // ---------------------------------------------------------------------
  // Properties

  /** A missing show is reported before a missing genre; either way the
      links are not touched. */
  lemma AddGenreErrors(shows: seq<Show>, genres: seq<Genre>, showId: int, genreId: int)
    ensures showId !in ShowIds(shows) ==> AddGenreToShow(shows, genres, showId, genreId) == Err(ShowNotFound)
    ensures showId in ShowIds(shows) && genreId !in GenreIds(genres) ==>
              AddGenreToShow(shows, genres, showId, genreId) == Err(GenreNotFound)
    ensures AddGenreToShow(shows, genres, showId, genreId).Ok? <==>
              showId in ShowIds(shows) && genreId in GenreIds(genres)
  {
  }

  /** A successful add links the genre to that show only, adds nothing when
      it is already linked, and adding twice is adding once. */
  lemma AddGenreEffect(shows: seq<Show>, genres: seq<Genre>, showId: int, genreId: int)
    requires AddGenreToShow(shows, genres, showId, genreId).Ok?
    ensures var i := ShowIndex(shows, showId).value;
            var r := AddGenreToShow(shows, genres, showId, genreId).value;
      && |r| == |shows| && r[i].id == showId
      && genreId in r[i].genres
      && (genreId in shows[i].genres ==> r == shows)
      && (genreId !in shows[i].genres ==> r[i].genres == shows[i].genres + [genreId])
      && r[i] == shows[i].(genres := r[i].genres)
      && (forall k :: 0 <= k < |shows| && k != i ==> r[k] == shows[k])
      && AddGenreToShow(r, genres, showId, genreId) == Ok(r)
  {
    var i := ShowIndex(shows, showId).value;
    var s := shows[i];
    var r := AddGenreToShow(shows, genres, showId, genreId).value;
    AddLinkSpec(s.genres, genreId);
    if genreId in s.genres {
      assert s.(genres := s.genres) == s;
      assert r == shows;
    } else {
      var s' := s.(genres := s.genres + [genreId]);
      assert r == shows[i := s'];
      ShowIndexUpdate(shows, showId, i, s');
      assert r[i := s'] == r;
    }
  }

  /** A missing show is an error; otherwise the genre is unlinked from that
      show only, unlinking a genre that is not linked changes nothing, and
      the show keeps its other genres. */
  lemma RemoveGenreEffect(shows: seq<Show>, genres: seq<Genre>, actors: seq<Actor>,
                          favorites: map<string, seq<int>>, showId: int, genreId: int)
    requires ValidCatalog(genres, actors, shows, favorites)
    ensures showId !in ShowIds(shows) <==> RemoveGenreFromShow(shows, showId, genreId) == Err(ShowNotFound)
    ensures RemoveGenreFromShow(shows, showId, genreId).Ok? ==>
      var i := ShowIndex(shows, showId).value;
      var r := RemoveGenreFromShow(shows, showId, genreId).value;
      && |r| == |shows| && r[i] == shows[i].(genres := r[i].genres)
      && genreId !in r[i].genres
      && (forall g :: g != genreId ==> (g in r[i].genres <==> g in shows[i].genres))
      && (genreId !in shows[i].genres ==> r == shows)
      && (forall k :: 0 <= k < |shows| && k != i ==> r[k] == shows[k])
  {
    if showId in ShowIds(shows) {
      var i := ShowIndex(shows, showId).value;
      assert LinksValid(shows[i], genres, actors);
      RemoveLinkOnSet(shows[i].genres, genreId);
      RemoveLinkSpec(shows[i].genres, genreId);
      if genreId !in shows[i].genres {
        assert shows[i].(genres := shows[i].genres) == shows[i];
      }
    }
  }

  /** The genres found are distinct, as genre ids are unique. */
  lemma {:induction false} FoundGenreIdsNoDups(genres: seq<Genre>, ids: set<int>)
    requires UniqueGenreIds(genres)
    ensures NoDups(FoundGenreIds(genres, ids))
  {
    if genres != [] {
      assert UniqueGenreIds(genres[1..]) by {
        forall i, j | 0 <= i < j < |genres[1..]|
          ensures genres[1..][i].id != genres[1..][j].id
        {
          assert genres[1..][i] == genres[i + 1] && genres[1..][j] == genres[j + 1];
        }
      }
      FoundGenreIdsNoDups(genres[1..], ids);
    }
  }

  /** Replacement fails, leaving every link as it was, exactly when some
      requested id names no genre; duplicates among the ids do not count. */
  lemma ReplaceSucceedsIffAllFound(shows: seq<Show>, genres: seq<Genre>, showId: int, genreIds: seq<int>)
    requires UniqueGenreIds(genres) && showId in ShowIds(shows)
    ensures ReplaceGenresForShow(shows, genres, showId, genreIds).Ok? <==>
              forall x :: x in genreIds ==> x in GenreIds(genres)
    ensures ReplaceGenresForShow(shows, genres, showId, genreIds).Err? ==>
              ReplaceGenresForShow(shows, genres, showId, genreIds) == Err(GenresNotFound)
  {
    var ids := set x | x in genreIds;
    var found := FoundGenreIds(genres, ids);
    FoundGenreIdsNoDups(genres, ids);
    NoDupsSubsetLength(found, Distinct(genreIds));
    if forall x :: x in genreIds ==> x in GenreIds(genres) {
      NoDupsSubsetLength(Distinct(genreIds), found);
    }
  }

  /** After a successful replace the show's genres are the set of requested
      ids, once each, and no other show changes. */
  lemma ReplaceEffect(shows: seq<Show>, genres: seq<Genre>, showId: int, genreIds: seq<int>)
    requires UniqueGenreIds(genres)
    requires ReplaceGenresForShow(shows, genres, showId, genreIds).Ok?
    ensures var i := ShowIndex(shows, showId).value;
            var r := ReplaceGenresForShow(shows, genres, showId, genreIds).value;
      && |r| == |shows| && r[i] == shows[i].(genres := r[i].genres)
      && NoDups(r[i].genres)
      && (forall g :: g in r[i].genres <==> g in genreIds)
      && (forall k :: 0 <= k < |shows| && k != i ==> r[k] == shows[k])
  {
    ReplaceSucceedsIffAllFound(shows, genres, showId, genreIds);
    FoundGenreIdsNoDups(genres, set x | x in genreIds);
  }

  /** `GetGenresForShowAsync` fails only for a missing show; otherwise it
      returns one page of the names of exactly the show's genres, in an
      order the database may produce for the requested sort. */
  lemma GetGenresSpec(shows: seq<Show>, genres: seq<Genre>, showId: int, page: int32,
                      pageSize: int32, sortBy: Option<GenreSortBy>, order: SortOrder)
    ensures var r := GetGenresForShow(shows, genres, showId, page, pageSize, sortBy, order);
      && (r.Err? <==> showId !in ShowIds(shows))
      && (r.Err? ==> r.message == ShowNotFound)
      && (r.Ok? ==> exists o :: IsOrderingOf(o, LinkedGenres(genres, shows[ShowIndex(shows, showId).value]),
                                             GenreOrder(sortBy, order))
                              && r.value == Names(PageItems(o, page as int, pageSize as int)))
  {
    if showId in ShowIds(shows) {
      var i := ShowIndex(shows, showId).value;
      var le := GenreOrder(sortBy, order);
      ByTextIsTotalPreorder((g: Genre) => g.name, sortBy == Some(GenreName) && order == Desc);
      SortIsSortedPermutation(LinkedGenres(genres, shows[i]), le);
      assert IsOrderingOf(Sort(LinkedGenres(genres, shows[i]), le), LinkedGenres(genres, shows[i]), le);
    }
  }

  /** Descending order is used only when the name key is in effect: a
      value no member names, with `desc`, still sorts ascending. */
  lemma GenreOrderDirection(sortBy: Option<GenreSortBy>, order: SortOrder, a: Genre, b: Genre)
    requires StringLe(a.name, b.name) && a.name != b.name
    ensures GenreOrder(sortBy, order)(b, a) <==> sortBy == Some(GenreName) && order == Desc
  {
    if StringLe(b.name, a.name) {
      StringLeAntisymmetric(a.name, b.name);
    }
  }

  /** With no key given the key is `Name`, so `desc` alone sorts the
      names descending. */
  lemma UnsetGenreKeyFollowsOrder(order: SortOrder, a: Genre, b: Genre)
    requires StringLe(a.name, b.name) && a.name != b.name
    ensures GenreOrder(UnsetGenreSortBy, order)(b, a) <==> order == Desc
  {
    GenreOrderDirection(UnsetGenreSortBy, order, a, b);
  }

  // ---------------------------------------------------------------------
  // The service

  class ShowGenresService {
    const db: ShowStore

    constructor (db: ShowStore)
      ensures this.db == db
    {
      this.db := db;
    }

    method AddGenreToShowAsync(showId: int, genreId: int) returns (r: Outcome)
      requires db.Valid()
      modifies db`shows
      ensures db.Valid()
      ensures var res := AddGenreToShow(old(db.shows), db.genres, showId, genreId);
        && (res.Ok? ==> r == Pass && db.shows == res.value)
        && (res.Err? ==> r == Fail(res.message) && db.shows == old(db.shows))
    {
      var i := ShowIndex(db.shows, showId);
      var g := GenreIndex(db.genres, genreId);
      if i.None? {
        return Fail(ShowNotFound);
      }
      if g.None? {
        return Fail(GenreNotFound);
      }
      var s := db.shows[i.value];
      if genreId !in s.genres {
        AddLinkSpec(s.genres, genreId);
        UpdateLinksKeepsValid(db.genres, db.actors, db.shows, db.favorites, i.value,
                              s.(genres := s.genres + [genreId]));
        db.shows := db.shows[i.value := s.(genres := s.genres + [genreId])];
      }
      r := Pass;
    }

    method RemoveGenreFromShowAsync(showId: int, genreId: int) returns (r: Outcome)
      requires db.Valid()
      modifies db`shows
      ensures db.Valid()
      ensures var res := RemoveGenreFromShow(old(db.shows), showId, genreId);
        && (res.Ok? ==> r == Pass && db.shows == res.value)
        && (res.Err? ==> r == Fail(res.message) && db.shows == old(db.shows))
    {
      var i := ShowIndex(db.shows, showId);
      if i.None? {
        return Fail(ShowNotFound);
      }
      var s := db.shows[i.value];
      if genreId in s.genres {
        assert LinksValid(s, db.genres, db.actors);
        RemoveLinkOnSet(s.genres, genreId);
        UpdateLinksKeepsValid(db.genres, db.actors, db.shows, db.favorites, i.value,
                              s.(genres := RemoveLink(s.genres, genreId)));
        db.shows := db.shows[i.value := s.(genres := RemoveLink(s.genres, genreId))];
      } else {
        RemoveLinkSpec(s.genres, genreId);
        assert s.(genres := RemoveLink(s.genres, genreId)) == s;
      }
      r := Pass;
    }

    method ReplaceGenresForShowAsync(showId: int, genreIds: seq<int>) returns (r: Outcome)
      requires db.Valid()
      modifies db`shows
      ensures db.Valid()
      ensures var res := ReplaceGenresForShow(old(db.shows), db.genres, showId, genreIds);
        && (res.Ok? ==> r == Pass && db.shows == res.value)
        && (res.Err? ==> r == Fail(res.message) && db.shows == old(db.shows))
    {
      var i := ShowIndex(db.shows, showId);
      if i.None? {
        return Fail(ShowNotFound);
      }
      var requested := set x | x in genreIds;
      var found := FoundGenreIds(db.genres, requested);
      if |found| != |Distinct(genreIds)| {
        return Fail(GenresNotFound);
      }
      var s := db.shows[i.value];
      FoundGenreIdsNoDups(db.genres, requested);
      UpdateLinksKeepsValid(db.genres, db.actors, db.shows, db.favorites, i.value, s.(genres := found));
      db.shows := db.shows[i.value := s.(genres := found)];
      r := Pass;
    }
  }
}
