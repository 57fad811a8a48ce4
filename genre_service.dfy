/** `GenreService`: the genre catalogue. */
module Genres {
  import opened Wrappers
  import opened Query
  import opened Pagination
  import opened Ordering
  import opened Catalog
  import ShowGenres

  const GenreExists := "Genre already exists."
  const GenreNotFound := "Genre not found"

  /** Some stored genre is called `name` (`Genres.AnyAsync(g => g.Name ==
      name)`, an exact comparison). */
  predicate NameStored(genres: seq<Genre>, name: string)
  {
    exists g :: g in genres && g.name == name
  }

  /** The key SQLite gives the next row of a table whose key is declared
      AUTOINCREMENT: one more than the larger of the largest key in the
      table and `used`, the largest key ever used, so that the key of a
      deleted row is never handed out again. */
  function NextGenreId(genres: seq<Genre>, used: int): (id: int)
    ensures forall g :: g in genres ==> g.id < id
    ensures used < id
    ensures id == used + 1 || exists g :: g in genres && id == g.id + 1
  {
    if genres == [] then used + 1
    else
      var rest := NextGenreId(genres[1..], used);
      assert genres == [genres[0]] + genres[1..];
      if genres[0].id < rest then rest else genres[0].id + 1
  }

  /** `CreateGenreAsync`: the new genre, or the exception. */
  function CreateGenre(genres: seq<Genre>, used: int, name: string): Result<Genre>
  {
    if NameStored(genres, name) then Err(GenreExists) else Ok(Genre(NextGenreId(genres, used), name))
  }

  /** The names the loop of `CreateGenresAsync` keeps: those not already
      stored, in input order, each batch entry checked only against the
      table. */
  function NewNames(genres: seq<Genre>, names: seq<string>): seq<string>
  {
    if names == [] then []
    else
      var last := names[|names| - 1];
      NewNames(genres, names[..|names| - 1]) + (if NameStored(genres, last) then [] else [last])
  }

  /** Rows for `names` with consecutive keys from `first`. */
  function Numbered(names: seq<string>, first: int): (r: seq<Genre>)
    ensures |r| == |names|
    ensures forall k :: 0 <= k < |r| ==> r[k] == Genre(first + k, names[k])
  {
    seq(|names|, k requires 0 <= k < |names| => Genre(first + k, names[k]))
  }

  /** `CreateGenresAsync`: a missing or empty batch adds nothing. */
  function CreateGenres(genres: seq<Genre>, used: int, dtos: Option<seq<string>>): seq<Genre>
  {
    if dtos.None? || dtos.value == [] then []
    else Numbered(NewNames(genres, dtos.value), NextGenreId(genres, used))
  }

  /** `UpdateGenreAsync`. */
  function UpdateGenre(genres: seq<Genre>, id: int, name: string): Result<seq<Genre>>
  {
    match GenreIndex(genres, id)
    case None => Err(GenreNotFound)
    case Some(i) => Ok(genres[i := genres[i].(name := name)])
  }

  /** The shows with genre `id` unlinked: the cascade on the `ShowGenres`
      join. */
  function UnlinkGenre(shows: seq<Show>, id: int): (r: seq<Show>)
    ensures |r| == |shows|
    ensures forall k :: 0 <= k < |r| ==> r[k] == shows[k].(genres := RemoveLink(shows[k].genres, id))
  {
    seq(|shows|, k requires 0 <= k < |shows| => shows[k].(genres := RemoveLink(shows[k].genres, id)))
  }

  /** `DeleteGenreAsync`: the genre table and the show table after the
      cascade. */
  function DeleteGenre(genres: seq<Genre>, shows: seq<Show>, id: int): Result<(seq<Genre>, seq<Show>)>
  {
    match GenreIndex(genres, id)
    case None => Err(GenreNotFound)
    case Some(i) => Ok((genres[..i] + genres[i + 1..], UnlinkGenre(shows, id)))
  }

  /** `GetAllGenresAsync`. */
  function GetAllGenres(genres: seq<Genre>, page: int32, pageSize: int32, sortBy: Option<GenreSortBy>,
                        order: SortOrder): seq<Genre>
  {
    PageItems(Sort(genres, ShowGenres.GenreOrder(sortBy, order)), page as int, pageSize as int)
  }

  // ---------------------------------------------------------------------
  // Properties

  /** A single create fails exactly on a stored name; otherwise it adds one
      genre with that name under a key no genre has. */
  lemma CreateGenreSpec(genres: seq<Genre>, used: int, name: string)
    ensures CreateGenre(genres, used, name).Err? <==> NameStored(genres, name)
    ensures CreateGenre(genres, used, name).Err? ==> CreateGenre(genres, used, name).message == GenreExists
    ensures CreateGenre(genres, used, name).Ok? ==>
      var g := CreateGenre(genres, used, name).value;
      g.name == name && g.id !in GenreIds(genres) && g.id > used && NameStored(genres + [g], name)
    ensures UniqueGenreIds(genres) && CreateGenre(genres, used, name).Ok? ==>
      UniqueGenreIds(genres + [CreateGenre(genres, used, name).value])
    ensures CreateGenre(genres, used, name).Ok? ==>
      CreateGenre(genres + [CreateGenre(genres, used, name).value], used, name) == Err(GenreExists)
  {
    if !NameStored(genres, name) {
      var g := Genre(NextGenreId(genres, used), name);
      assert g in genres + [g];
    }
  }

  /** The kept names are the batch without the stored names, in order and
      with their multiplicities: duplicates inside a batch are all kept. */
  lemma {:induction false} NewNamesSpec(genres: seq<Genre>, names: seq<string>)
    ensures forall n :: multiset(NewNames(genres, names))[n] ==
                        if NameStored(genres, n) then 0 else multiset(names)[n]
  {
    if names != [] {
      var init := names[..|names| - 1];
      NewNamesSpec(genres, init);
      assert names == init + [names[|names| - 1]];
    }
  }

  /** What a batch create adds: for each name not stored, a genre with that
      name, keys consecutive after every existing key, in input order. */
  lemma CreateGenresSpec(genres: seq<Genre>, used: int, dtos: Option<seq<string>>)
    ensures dtos.None? || dtos.value == [] ==> CreateGenres(genres, used, dtos) == []
    ensures dtos.Some? ==> forall n :: multiset(Names(CreateGenres(genres, used, dtos)))[n] ==
                                        if NameStored(genres, n) then 0 else multiset(dtos.value)[n]
    ensures forall k :: 0 <= k < |CreateGenres(genres, used, dtos)| ==>
              CreateGenres(genres, used, dtos)[k].id == NextGenreId(genres, used) + k &&
              CreateGenres(genres, used, dtos)[k].id !in GenreIds(genres) &&
              CreateGenres(genres, used, dtos)[k].id > used
    ensures dtos.Some? && (forall n :: n in dtos.value ==> NameStored(genres, n)) ==>
              CreateGenres(genres, used, dtos) == []
  {
    if dtos.Some? {
      NewNamesSpec(genres, dtos.value);
      if dtos.value != [] {
        assert Names(CreateGenres(genres, used, dtos)) == NewNames(genres, dtos.value);
      }
      if forall n :: n in dtos.value ==> NameStored(genres, n) {
        var kept := NewNames(genres, dtos.value);
        forall n
          ensures multiset(kept)[n] == 0
        {
          if !NameStored(genres, n) {
            assert n !in dtos.value;
          }
        }
        assert multiset(kept) == multiset{};
        assert |kept| == |multiset(kept)|;
      }
    }
  }

  function Names(gs: seq<Genre>): (r: seq<string>)
    ensures |r| == |gs| && forall k :: 0 <= k < |gs| ==> r[k] == gs[k].name
  {
    ShowGenres.Names(gs)
  }

  /** A batch of two equal new names adds two genres with that name. */
  lemma BatchKeepsDuplicates()
    ensures CreateGenres([], 0, Some(["Drama", "Drama"])) == [Genre(1, "Drama"), Genre(2, "Drama")]
  {
    assert !NameStored([], "Drama");
    assert ["Drama", "Drama"][..1] == ["Drama"];
    assert NewNames([], ["Drama"]) == ["Drama"] by {
      assert ["Drama"][..0] == [];
    }
  }

  /** A genre created after a delete never gets the deleted genre's key,
      nor any key the table held before. */
  lemma DeletedGenreKeyIsNotReused(genres: seq<Genre>, shows: seq<Show>, used: int, id: int, name: string)
    requires forall g :: g in genres ==> g.id <= used
    requires DeleteGenre(genres, shows, id).Ok?
    ensures var genres' := DeleteGenre(genres, shows, id).value.0;
      CreateGenre(genres', used, name).Ok? ==>
        CreateGenre(genres', used, name).value.id != id &&
        CreateGenre(genres', used, name).value.id !in GenreIds(genres)
  {
    var i := GenreIndex(genres, id).value;
    assert genres[i] in genres;
  }

  /** Keys stay unique when a batch is appended. */
  lemma CreateGenresKeepsIdsUnique(genres: seq<Genre>, used: int, dtos: Option<seq<string>>)
    requires UniqueGenreIds(genres)
    ensures UniqueGenreIds(genres + CreateGenres(genres, used, dtos))
  {
    CreateGenresSpec(genres, used, dtos);
    var added := CreateGenres(genres, used, dtos);
    var all := genres + added;
    forall i, j | 0 <= i < j < |all|
      ensures all[i].id != all[j].id
    {
      if j >= |genres| {
        assert all[j] == added[j - |genres|];
        if i < |genres| {
          assert all[i] in genres;
        } else {
          assert all[i] == added[i - |genres|];
        }
      }
    }
  }

  /** Update fails exactly for an unknown key; otherwise only that genre's
      name changes, with no check that the new name is free. */
  lemma UpdateGenreSpec(genres: seq<Genre>, id: int, name: string)
    ensures UpdateGenre(genres, id, name).Err? <==> id !in GenreIds(genres)
    ensures UpdateGenre(genres, id, name).Err? ==> UpdateGenre(genres, id, name).message == GenreNotFound
    ensures UpdateGenre(genres, id, name).Ok? ==>
      var r := UpdateGenre(genres, id, name).value;
      var i := GenreIndex(genres, id).value;
      && |r| == |genres| && r[i] == Genre(id, name)
      && (forall k :: 0 <= k < |genres| ==> r[k].id == genres[k].id)
      && (forall k :: 0 <= k < |genres| && k != i ==> r[k] == genres[k])
  {
  }

  /** Renaming a genre to the name of another succeeds and leaves two
      genres with that name. */
  lemma UpdateAllowsDuplicateName()
    ensures UpdateGenre([Genre(1, "Drama"), Genre(2, "Comedy")], 2, "Drama") ==
              Ok([Genre(1, "Drama"), Genre(2, "Drama")])
  {
    var gs := [Genre(1, "Drama"), Genre(2, "Comedy")];
    assert gs[1..] == [Genre(2, "Comedy")];
    assert GenreIndex(gs[1..], 2) == Some(0);
    assert GenreIndex(gs, 2) == Some(1);
    assert gs[1 := gs[1].(name := "Drama")] == [Genre(1, "Drama"), Genre(2, "Drama")];
  }

  /** Without duplicate keys, the genres left after a delete are the others. */
  lemma GenreIdsAfterDelete(genres: seq<Genre>, i: nat)
    requires UniqueGenreIds(genres) && i < |genres|
    ensures GenreIds(genres[..i] + genres[i + 1..]) == GenreIds(genres) - {genres[i].id}
    ensures UniqueGenreIds(genres[..i] + genres[i + 1..])
  {
    var rest := genres[..i] + genres[i + 1..];
    assert genres == genres[..i] + [genres[i]] + genres[i + 1..];
    forall g | g in rest
      ensures g.id != genres[i].id
    {
      var k :| 0 <= k < |rest| && rest[k] == g;
      assert rest[k] == genres[if k < i then k else k + 1];
    }
    forall a, b | 0 <= a < b < |rest|
      ensures rest[a].id != rest[b].id
    {
      assert rest[a] == genres[if a < i then a else a + 1];
      assert rest[b] == genres[if b < i then b else b + 1];
    }
  }

  /** Delete fails exactly for an unknown key; otherwise the genre leaves
      the table and every show, and nothing else changes. */
  lemma DeleteGenreSpec(genres: seq<Genre>, actors: seq<Actor>, shows: seq<Show>,
                        favorites: map<string, seq<int>>, id: int)
    requires ValidCatalog(genres, actors, shows, favorites)
    ensures DeleteGenre(genres, shows, id).Err? <==> id !in GenreIds(genres)
    ensures DeleteGenre(genres, shows, id).Ok? ==>
      var (genres', shows') := DeleteGenre(genres, shows, id).value;
      && GenreIds(genres') == GenreIds(genres) - {id}
      && (forall g :: g in genres && g.id != id ==> g in genres')
      && |shows'| == |shows|
      && (forall k :: 0 <= k < |shows| ==>
            && shows'[k] == shows[k].(genres := shows'[k].genres)
            && id !in shows'[k].genres
            && forall x :: x != id ==> (x in shows'[k].genres <==> x in shows[k].genres))
      && ValidCatalog(genres', actors, shows', favorites)
  {
    if id in GenreIds(genres) {
      var i := GenreIndex(genres, id).value;
      var (genres', shows') := DeleteGenre(genres, shows, id).value;
      GenreIdsAfterDelete(genres, i);
      assert genres == genres[..i] + [genres[i]] + genres[i + 1..];
      forall k | 0 <= k < |shows|
        ensures id !in shows'[k].genres
        ensures forall x :: x != id ==> (x in shows'[k].genres <==> x in shows[k].genres)
        ensures LinksValid(shows'[k], genres', actors)
      {
        assert shows[k] in shows;
        assert LinksValid(shows[k], genres, actors);
        RemoveLinkOnSet(shows[k].genres, id);
      }
      assert ShowIds(shows') == ShowIds(shows) by {
        forall x | x in ShowIds(shows)
          ensures x in ShowIds(shows')
        {
          var k :| 0 <= k < |shows| && shows[k].id == x;
          assert shows'[k].id == x;
        }
      }
      forall a, b | 0 <= a < b < |shows'|
        ensures shows'[a].id != shows'[b].id
      {
      }
      forall s | s in shows'
        ensures LinksValid(s, genres', actors)
      {
        var k :| 0 <= k < |shows'| && shows'[k] == s;
      }
    }
  }

  /** The listing is one page of all genres, in an order the database may
      produce for the requested sort. */
  lemma GetAllGenresSpec(genres: seq<Genre>, page: int32, pageSize: int32, sortBy: Option<GenreSortBy>,
                         order: SortOrder)
    ensures exists o :: IsOrderingOf(o, genres, ShowGenres.GenreOrder(sortBy, order)) &&
                        GetAllGenres(genres, page, pageSize, sortBy, order) == PageItems(o, page as int, pageSize as int)
  {
    var le := ShowGenres.GenreOrder(sortBy, order);
    ByTextIsTotalPreorder((g: Genre) => g.name, sortBy == Some(GenreName) && order == Desc);
    SortIsSortedPermutation(genres, le);
    assert IsOrderingOf(Sort(genres, le), genres, le);
  }

  // ---------------------------------------------------------------------
  // The service

  class GenreService {
    const db: ShowStore

    constructor (db: ShowStore)
      ensures this.db == db
    {
      this.db := db;
    }

    method CreateGenreAsync(name: string) returns (r: Result<Genre>)
      requires db.Valid()
      modifies db`genres, db`genreKeysUsed
      ensures db.Valid()
      ensures r == CreateGenre(old(db.genres), old(db.genreKeysUsed), name)
      ensures db.genres == if r.Ok? then old(db.genres) + [r.value] else old(db.genres)
      ensures db.genreKeysUsed == if r.Ok? then r.value.id else old(db.genreKeysUsed)
    {
      if exists g :: g in db.genres && g.name == name {
        return Err(GenreExists);
      }
      var genre := Genre(NextGenreId(db.genres, db.genreKeysUsed), name);
      CreateGenreSpec(db.genres, db.genreKeysUsed, name);
      GrowGenresKeepsValid(db.genres, db.actors, db.shows, db.favorites, [genre]);
      db.genres, db.genreKeysUsed := db.genres + [genre], genre.id;
      r := Ok(genre);
    }

    method CreateGenresAsync(dtos: Option<seq<string>>) returns (r: seq<Genre>)
      requires db.Valid()
      modifies db`genres, db`genreKeysUsed
      ensures db.Valid()
      ensures r == CreateGenres(old(db.genres), old(db.genreKeysUsed), dtos)
      ensures db.genres == old(db.genres) + r
      ensures db.genreKeysUsed == if r == [] then old(db.genreKeysUsed) else r[|r| - 1].id
    {
      if dtos.None? || |dtos.value| == 0 {
        return [];
      }
      var batch := dtos.value;
      var kept: seq<string> := [];
      var i := 0;
      while i < |batch|
        invariant 0 <= i <= |batch|
        invariant kept == NewNames(db.genres, batch[..i])
      {
        assert batch[..i + 1][..i] == batch[..i];
        if exists g :: g in db.genres && g.name == batch[i] {
          i := i + 1;
          continue;
        }
        kept := kept + [batch[i]];
        i := i + 1;
      }
      assert batch[..i] == batch;
      if |kept| == 0 {
        return [];
      }
      r := Numbered(kept, NextGenreId(db.genres, db.genreKeysUsed));
      CreateGenresKeepsIdsUnique(db.genres, db.genreKeysUsed, dtos);
      GrowGenresKeepsValid(db.genres, db.actors, db.shows, db.favorites, r);
      db.genres, db.genreKeysUsed := db.genres + r, r[|r| - 1].id;
    }

    method UpdateGenreAsync(id: int, name: string) returns (r: Outcome)
      requires db.Valid()
      modifies db`genres
      ensures db.Valid()
      ensures var res := UpdateGenre(old(db.genres), id, name);
        && (res.Ok? ==> r == Pass && db.genres == res.value)
        && (res.Err? ==> r == Fail(res.message) && db.genres == old(db.genres))
    {
      var i := GenreIndex(db.genres, id);
      if i.None? {
        return Fail(GenreNotFound);
      }
      RenameKeepsValid(db.genres, db.actors, db.shows, db.favorites, i.value, name);
      db.genres := db.genres[i.value := db.genres[i.value].(name := name)];
      r := Pass;
    }

    method DeleteGenreAsync(id: int) returns (r: Outcome)
      requires db.Valid()
      modifies db`genres, db`shows
      ensures db.Valid()
      ensures var res := DeleteGenre(old(db.genres), old(db.shows), id);
        && (res.Ok? ==> r == Pass && (db.genres, db.shows) == res.value)
        && (res.Err? ==> r == Fail(res.message) && db.genres == old(db.genres) && db.shows == old(db.shows))
    {
      var i := GenreIndex(db.genres, id);
      if i.None? {
        return Fail(GenreNotFound);
      }
      DeleteGenreSpec(db.genres, db.actors, db.shows, db.favorites, id);
      db.genres, db.shows := db.genres[..i.value] + db.genres[i.value + 1..], UnlinkGenre(db.shows, id);
      r := Pass;
    }
  }

  /** Appending genres under fresh, distinct keys keeps the catalogue valid. */
  lemma GrowGenresKeepsValid(genres: seq<Genre>, actors: seq<Actor>, shows: seq<Show>,
                             favorites: map<string, seq<int>>, added: seq<Genre>)
    requires ValidCatalog(genres, actors, shows, favorites)
    requires UniqueGenreIds(genres + added)
    ensures ValidCatalog(genres + added, actors, shows, favorites)
  {
    assert GenreIds(genres) <= GenreIds(genres + added);
    forall s | s in shows
      ensures LinksValid(s, genres + added, actors)
    {
      assert LinksValid(s, genres, actors);
    }
  }

  /** Renaming keeps every key, so the catalogue stays valid. */
  lemma RenameKeepsValid(genres: seq<Genre>, actors: seq<Actor>, shows: seq<Show>,
                         favorites: map<string, seq<int>>, i: nat, name: string)
    requires ValidCatalog(genres, actors, shows, favorites) && i < |genres|
    ensures ValidCatalog(genres[i := genres[i].(name := name)], actors, shows, favorites)
  {
    var genres' := genres[i := genres[i].(name := name)];
    assert GenreIds(genres') == GenreIds(genres) by {
      forall x | x in GenreIds(genres)
        ensures x in GenreIds(genres')
      {
        var k :| 0 <= k < |genres| && genres[k].id == x;
        assert genres'[k].id == x;
      }
      forall x | x in GenreIds(genres')
        ensures x in GenreIds(genres)
      {
        var k :| 0 <= k < |genres'| && genres'[k].id == x;
        assert genres[k].id == x;
      }
    }
    forall s | s in shows
      ensures LinksValid(s, genres', actors)
    {
      assert LinksValid(s, genres, actors);
    }
  }
}
