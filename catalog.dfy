/** The catalogue tables of `ShowStoreContext`: genres, actors, shows, and
    the three many-to-many joins (show–genre, show–actor, user–favourite). */
module Catalog {
  import opened Wrappers

  datatype Genre = Genre(id: int, name: string)
  datatype Actor = Actor(id: int, name: string)

  /** A show row with its `Genres` and `Actors` navigation lists, as ids
      in list order.  `releaseDate` is the `DateOnly` as a day number. */
  datatype Show = Show(id: int, title: string, releaseDate: int, genres: seq<int>, actors: seq<int>)

  /** The sort keys the list endpoints accept, with the members the
      `switch` arms name, in the order the arms name them.  `None` in the
      `Option` the queries take is a value of the enumeration that no arm
      names (an out-of-range number). */
  datatype GenreSortBy = GenreName
  datatype ActorSortBy = ActorName
  datatype ShowSortBy = Title | ReleaseDate

  /** `default(T)`, what an unset `SortBy` holds: the member numbered 0,
      which is the first member when the enumeration is declared without
      explicit numbers in the order its `switch` arms name it. */
  const UnsetGenreSortBy: Option<GenreSortBy> := Some(GenreName)
  const UnsetActorSortBy: Option<ActorSortBy> := Some(ActorName)
  const UnsetShowSortBy: Option<ShowSortBy> := Some(Title)

  predicate NoDups(s: seq<int>)
  {
    forall i, j :: 0 <= i < j < |s| ==> s[i] != s[j]
  }

  function GenreIds(genres: seq<Genre>): set<int> { set g | g in genres :: g.id }
  function ActorIds(actors: seq<Actor>): set<int> { set a | a in actors :: a.id }
  function ShowIds(shows: seq<Show>): set<int> { set s | s in shows :: s.id }

  /** The position of the show with id `id`: `FirstOrDefault(s => s.Id == id)`. */
  function ShowIndex(shows: seq<Show>, id: int): (r: Option<nat>)
    ensures r.Some? ==> r.value < |shows| && shows[r.value].id == id
    ensures r.None? <==> id !in ShowIds(shows)
  {
    if shows == [] then None
    else if shows[0].id == id then Some(0)
    else match ShowIndex(shows[1..], id)
      case None => assert shows == [shows[0]] + shows[1..]; None
      case Some(k) => Some(k + 1)
  }

  /** The position of the genre with id `id`: `Genres.FindAsync(id)`. */
  function GenreIndex(genres: seq<Genre>, id: int): (r: Option<nat>)
    ensures r.Some? ==> r.value < |genres| && genres[r.value].id == id
    ensures r.None? <==> id !in GenreIds(genres)
  {
    if genres == [] then None
    else if genres[0].id == id then Some(0)
    else match GenreIndex(genres[1..], id)
      case None => assert genres == [genres[0]] + genres[1..]; None
      case Some(k) => Some(k + 1)
  }

  /** The first row with an id does not move when a row is replaced by
      one with the same id. */
  lemma {:induction false} ShowIndexUpdate(shows: seq<Show>, showId: int, k: nat, s: Show)
    requires k < |shows| && s.id == shows[k].id
    ensures ShowIndex(shows[k := s], showId) == ShowIndex(shows, showId)
  {
    if shows != [] && shows[0].id != showId && k > 0 {
      assert shows[k := s][1..] == shows[1..][k - 1 := s];
      ShowIndexUpdate(shows[1..], showId, k - 1, s);
    }
  }

  // ---------------------------------------------------------------------
  // The navigation lists as sets

  /** `if (!list.Contains(x)) list.Add(x)`. */
  function AddLink(links: seq<int>, x: int): seq<int>
  {
    if x in links then links else links + [x]
  }

  /** `list.Remove(x)`: drops the first occurrence of `x`, if any. */
  function RemoveLink(links: seq<int>, x: int): seq<int>
  {
    if links == [] then []
    else if links[0] == x then links[1..]
    else [links[0]] + RemoveLink(links[1..], x)
  }

  /** The first position of `x` in `links`. */
  function FirstIndex(links: seq<int>, x: int): (k: nat)
    requires x in links
    ensures k < |links| && links[k] == x && x !in links[..k]
  {
    if links[0] == x then 0 else 1 + FirstIndex(links[1..], x)
  }

  /** Adding a link that is there changes nothing; otherwise it is appended
      once, and a duplicate-free list stays duplicate-free. */
  lemma AddLinkSpec(links: seq<int>, x: int)
    ensures x in AddLink(links, x)
    ensures x in links ==> AddLink(links, x) == links
    ensures x !in links ==> AddLink(links, x) == links + [x]
    ensures multiset(AddLink(links, x))[x] == if x in links then multiset(links)[x] else 1
    ensures forall y :: y != x ==> multiset(AddLink(links, x))[y] == multiset(links)[y]
    ensures AddLink(AddLink(links, x), x) == AddLink(links, x)
    ensures NoDups(links) ==> NoDups(AddLink(links, x))
  {
  }

  /** Removing drops exactly the first occurrence and keeps the order of
      the rest; a link that is not there leaves the list as it is. */
  lemma {:induction false} RemoveLinkSpec(links: seq<int>, x: int)
    ensures x !in links ==> RemoveLink(links, x) == links
    ensures x in links ==> var k := FirstIndex(links, x);
      RemoveLink(links, x) == links[..k] + links[k + 1..]
  {
    if links != [] && links[0] != x {
      RemoveLinkSpec(links[1..], x);
      if x in links {
        var k := FirstIndex(links[1..], x);
        assert [links[0]] + links[1..][..k] == links[..k + 1];
        assert links[1..][k + 1..] == links[k + 2..];
      }
    }
  }

  /** On a duplicate-free list, removal takes out `x` and nothing else. */
  lemma {:induction false} RemoveLinkOnSet(links: seq<int>, x: int)
    requires NoDups(links)
    ensures NoDups(RemoveLink(links, x))
    ensures x !in RemoveLink(links, x)
    ensures forall y :: y != x ==> (y in RemoveLink(links, x) <==> y in links)
    ensures RemoveLink(RemoveLink(links, x), x) == RemoveLink(links, x)
  {
    if links != [] {
      assert NoDups(links[1..]);
      if links[0] == x {
        assert x !in links[1..];
        RemoveLinkSpec(links[1..], x);
      } else {
        RemoveLinkOnSet(links[1..], x);
        var r := RemoveLink(links[1..], x);
        assert links[0] !in r;
        assert RemoveLink(links, x) == [links[0]] + r;
      }
    }
  }

  /** The elements of `s` that are also in `keep`, in the order of `s`. */
  function FilterIn(s: seq<int>, keep: set<int>): (r: seq<int>)
    ensures forall y :: y in r <==> y in s && y in keep
  {
    if s == [] then [] else (if s[0] in keep then [s[0]] else []) + FilterIn(s[1..], keep)
  }

  lemma {:induction false} NoDupsFilterIn(s: seq<int>, keep: set<int>)
    requires NoDups(s)
    ensures NoDups(FilterIn(s, keep))
  {
    if s != [] {
      NoDupsFilterIn(s[1..], keep);
    }
  }

  /** LINQ `Distinct`: the first occurrence of each element, in order. */
  function Distinct(s: seq<int>): (r: seq<int>)
    ensures NoDups(r) && forall x :: x in r <==> x in s
  {
    if s == [] then []
    else
      var r := Distinct(s[..|s| - 1]);
      assert s == s[..|s| - 1] + [s[|s| - 1]];
      if s[|s| - 1] in r then r else r + [s[|s| - 1]]
  }

  /** Counting argument: a duplicate-free list whose elements all occur in
      another duplicate-free list is no longer, and is as long only when
      both hold the same elements. */
  lemma {:induction false} NoDupsSubsetLength(a: seq<int>, b: seq<int>)
    requires NoDups(a) && NoDups(b) && forall x :: x in a ==> x in b
    ensures |a| <= |b|
    ensures |a| == |b| ==> forall x :: x in b ==> x in a
  {
    if a != [] {
      var x := a[0];
      RemoveLinkSpec(b, x);
      RemoveLinkOnSet(b, x);
      var b' := RemoveLink(b, x);
      assert |b'| == |b| - 1;
      assert NoDups(a[1..]);
      assert x !in a[1..];
      NoDupsSubsetLength(a[1..], b');
    }
  }

  // ---------------------------------------------------------------------
  // Consistency of the tables

  ghost predicate UniqueGenreIds(genres: seq<Genre>)
  {
    forall i, j :: 0 <= i < j < |genres| ==> genres[i].id != genres[j].id
  }

  ghost predicate UniqueActorIds(actors: seq<Actor>)
  {
    forall i, j :: 0 <= i < j < |actors| ==> actors[i].id != actors[j].id
  }

  ghost predicate UniqueShowIds(shows: seq<Show>)
  {
    forall i, j :: 0 <= i < j < |shows| ==> shows[i].id != shows[j].id
  }

  /** A show's join rows: each linked genre and actor exists, once. */
  ghost predicate LinksValid(s: Show, genres: seq<Genre>, actors: seq<Actor>)
  {
    && NoDups(s.genres) && (forall g :: g in s.genres ==> g in GenreIds(genres))
    && NoDups(s.actors) && (forall a :: a in s.actors ==> a in ActorIds(actors))
  }

  /** Each user's favourites exist, once. */
  ghost predicate FavoritesValid(favorites: map<string, seq<int>>, shows: seq<Show>)
  {
    forall u :: u in favorites ==>
      NoDups(favorites[u]) && forall x :: x in favorites[u] ==> x in ShowIds(shows)
  }

  /** What the primary keys, composite join keys and foreign keys of the
      schema guarantee. */
  ghost predicate ValidCatalog(genres: seq<Genre>, actors: seq<Actor>, shows: seq<Show>,
                               favorites: map<string, seq<int>>)
  {
    && UniqueGenreIds(genres) && UniqueActorIds(actors) && UniqueShowIds(shows)
    && (forall s :: s in shows ==> LinksValid(s, genres, actors))
    && FavoritesValid(favorites, shows)
  }

  lemma ShowIdsUpdate(shows: seq<Show>, i: nat, s: Show)
    requires i < |shows| && s.id == shows[i].id
    ensures ShowIds(shows[i := s]) == ShowIds(shows)
  {
    assert forall x :: x in ShowIds(shows) ==> x in ShowIds(shows[i := s]) by {
      forall x | x in ShowIds(shows)
        ensures x in ShowIds(shows[i := s])
      {
        var k :| 0 <= k < |shows| && shows[k].id == x;
        assert shows[i := s][k].id == x;
      }
    }
  }

  /** Replacing one show's links by valid ones keeps the catalogue valid. */
  lemma UpdateLinksKeepsValid(genres: seq<Genre>, actors: seq<Actor>, shows: seq<Show>,
                              favorites: map<string, seq<int>>, i: nat, s: Show)
    requires ValidCatalog(genres, actors, shows, favorites)
    requires i < |shows| && s.id == shows[i].id && LinksValid(s, genres, actors)
    ensures ValidCatalog(genres, actors, shows[i := s], favorites)
  {
    ShowIdsUpdate(shows, i, s);
    var shows' := shows[i := s];
    forall t | t in shows'
      ensures LinksValid(t, genres, actors)
    {
      var k :| 0 <= k < |shows'| && shows'[k] == t;
      if k != i {
        assert shows[k] == t;
      }
    }
  }

  /** The tables of `ShowStoreContext` that the catalogue services change.
      `favorites` maps each user id (the `Users` table) to the ids of its
      `FavoriteShows`. */
  class ShowStore {
    var genres: seq<Genre>
    var actors: seq<Actor>
    var shows: seq<Show>
    var favorites: map<string, seq<int>>
    /** The `sqlite_sequence` entry of the `Genres` table, whose key is
        declared AUTOINCREMENT: the largest genre key ever used (0 before
        the first insert). */
    var genreKeysUsed: int

    ghost predicate Valid()
      reads this
    {
      && ValidCatalog(genres, actors, shows, favorites)
      && forall g :: g in genres ==> g.id <= genreKeysUsed
    }

    constructor (genres: seq<Genre>, actors: seq<Actor>, shows: seq<Show>,
                 favorites: map<string, seq<int>>, genreKeysUsed: int)
      requires ValidCatalog(genres, actors, shows, favorites)
      requires forall g :: g in genres ==> g.id <= genreKeysUsed
      ensures Valid()
      ensures this.genres == genres && this.actors == actors
      ensures this.shows == shows && this.favorites == favorites
      ensures this.genreKeysUsed == genreKeysUsed
    {
      this.genres := genres;
      this.actors := actors;
      this.shows := shows;
      this.favorites := favorites;
      this.genreKeysUsed := genreKeysUsed;
    }
  }
}
