/** `ShowActorService`: the actors linked to a show. */
module ShowActors {
  import opened Wrappers
  import opened Query
  import opened Pagination
  import opened Ordering
  import opened Catalog

  const ShowNotFound := "Show not found."
  const ActorNotFound := "Actor not found."

  /** `AddActorToShowAsync`. */
  function AddActorToShow(shows: seq<Show>, actors: seq<Actor>, showId: int, actorId: int): Result<seq<Show>>
  {
    match ShowIndex(shows, showId)
    case None => Err(ShowNotFound)
    case Some(i) =>
      if actorId !in ActorIds(actors) then Err(ActorNotFound)
      else Ok(shows[i := shows[i].(actors := AddLink(shows[i].actors, actorId))])
  }

  /** `RemoveActorFromShowAsync`. */
  function RemoveActorFromShow(shows: seq<Show>, showId: int, actorId: int): Result<seq<Show>>
  {
    match ShowIndex(shows, showId)
    case None => Err(ShowNotFound)
    case Some(i) => Ok(shows[i := shows[i].(actors := RemoveLink(shows[i].actors, actorId))])
  }

  /** `Actors.Where(a => a.Shows.Any(s => s.Id == showId))`, in table
      order: no actor when there is no such show. */
  function LinkedActors(actors: seq<Actor>, shows: seq<Show>, showId: int): (r: seq<Actor>)
    ensures forall a :: a in r <==> a in actors && match ShowIndex(shows, showId)
                                                   case None => false
                                                   case Some(i) => a.id in shows[i].actors
  {
    if actors == [] then []
    else
      var linked := match ShowIndex(shows, showId)
                    case None => false
                    case Some(i) => actors[0].id in shows[i].actors;
      (if linked then [actors[0]] else []) + LinkedActors(actors[1..], shows, showId)
  }

  /** `(Name, desc)` sorts by name descending; every other combination
      ascending. */
  function ActorOrder(sortBy: Option<ActorSortBy>, order: SortOrder): (Actor, Actor) -> bool
  {
    ByText((a: Actor) => a.name, sortBy == Some(ActorName) && order == Desc)
  }

  /** `GetActorsByShowIdAsync`: every linked actor in an export response
      unless the format is JSON, one page of them otherwise. */
  function GetActorsByShowId(shows: seq<Show>, actors: seq<Actor>, showId: int, page: int32, pageSize: int32,
                             sortBy: Option<ActorSortBy>, order: SortOrder, format: ExportFormat): PaginatedResponse<Actor>
  {
    var ordered := Sort(LinkedActors(actors, shows, showId), ActorOrder(sortBy, order));
    if format != Json then ToExportResponse(ordered) else ToPaginatedDto(ordered, page, pageSize)
  }

  // ---------------------------------------------------------------------
  // Properties

  /** A missing show is reported before a missing actor. */
  lemma AddActorErrors(shows: seq<Show>, actors: seq<Actor>, showId: int, actorId: int)
    ensures showId !in ShowIds(shows) ==> AddActorToShow(shows, actors, showId, actorId) == Err(ShowNotFound)
    ensures showId in ShowIds(shows) && actorId !in ActorIds(actors) ==>
              AddActorToShow(shows, actors, showId, actorId) == Err(ActorNotFound)
    ensures AddActorToShow(shows, actors, showId, actorId).Ok? <==>
              showId in ShowIds(shows) && actorId in ActorIds(actors)
  {
  }

  /** A successful add links the actor to that show only, once; adding an
      actor already linked changes nothing, so adding twice is adding once. */
  lemma AddActorEffect(shows: seq<Show>, actors: seq<Actor>, showId: int, actorId: int)
    requires AddActorToShow(shows, actors, showId, actorId).Ok?
    ensures var i := ShowIndex(shows, showId).value;
            var r := AddActorToShow(shows, actors, showId, actorId).value;
      && |r| == |shows| && r[i].id == showId
      && actorId in r[i].actors
      && (actorId in shows[i].actors ==> r == shows)
      && (actorId !in shows[i].actors ==> r[i].actors == shows[i].actors + [actorId])
      && r[i] == shows[i].(actors := r[i].actors)
      && (forall k :: 0 <= k < |shows| && k != i ==> r[k] == shows[k])
      && AddActorToShow(r, actors, showId, actorId) == Ok(r)
  {
    var i := ShowIndex(shows, showId).value;
    var s := shows[i];
    var r := AddActorToShow(shows, actors, showId, actorId).value;
    AddLinkSpec(s.actors, actorId);
    if actorId in s.actors {
      assert s.(actors := s.actors) == s;
      assert r == shows;
    } else {
      var s' := s.(actors := s.actors + [actorId]);
      assert r == shows[i := s'];
      ShowIndexUpdate(shows, showId, i, s');
      assert r[i := s'] == r;
    }
  }

  /** A missing show is an error; otherwise only that actor is unlinked
      from that show, and unlinking an actor that is not linked changes
      nothing. */
  lemma RemoveActorEffect(shows: seq<Show>, genres: seq<Genre>, actors: seq<Actor>,
                          favorites: map<string, seq<int>>, showId: int, actorId: int)
    requires ValidCatalog(genres, actors, shows, favorites)
    ensures showId !in ShowIds(shows) <==> RemoveActorFromShow(shows, showId, actorId) == Err(ShowNotFound)
    ensures RemoveActorFromShow(shows, showId, actorId).Ok? ==>
      var i := ShowIndex(shows, showId).value;
      var r := RemoveActorFromShow(shows, showId, actorId).value;
      && |r| == |shows| && r[i] == shows[i].(actors := r[i].actors)
      && actorId !in r[i].actors
      && (forall a :: a != actorId ==> (a in r[i].actors <==> a in shows[i].actors))
      && (actorId !in shows[i].actors ==> r == shows)
      && (forall k :: 0 <= k < |shows| && k != i ==> r[k] == shows[k])
  {
    if showId in ShowIds(shows) {
      var i := ShowIndex(shows, showId).value;
      assert LinksValid(shows[i], genres, actors);
      RemoveLinkOnSet(shows[i].actors, actorId);
      RemoveLinkSpec(shows[i].actors, actorId);
      if actorId !in shows[i].actors {
        assert shows[i].(actors := shows[i].actors) == shows[i];
      }
    }
  }

  /** The listing never fails: it holds exactly the show's actors, in an
      order the database may produce for the requested sort, either all of
      them (any format but JSON) or one page. */
  lemma GetActorsSpec(shows: seq<Show>, actors: seq<Actor>, showId: int, page: int32, pageSize: int32,
                      sortBy: Option<ActorSortBy>, order: SortOrder, format: ExportFormat)
    ensures var r := GetActorsByShowId(shows, actors, showId, page, pageSize, sortBy, order, format);
      exists o :: IsOrderingOf(o, LinkedActors(actors, shows, showId), ActorOrder(sortBy, order)) &&
        r == if format != Json then ToExportResponse(o) else ToPaginatedDto(o, page, pageSize)
    ensures showId !in ShowIds(shows) ==>
      GetActorsByShowId(shows, actors, showId, page, pageSize, sortBy, order, format).items == []
  {
    var le := ActorOrder(sortBy, order);
    var linked := LinkedActors(actors, shows, showId);
    ByTextIsTotalPreorder((a: Actor) => a.name, sortBy == Some(ActorName) && order == Desc);
    SortIsSortedPermutation(linked, le);
    assert IsOrderingOf(Sort(linked, le), linked, le);
  }

  /** Descending order is used only for `(Name, desc)`. */
  lemma ActorOrderDirection(sortBy: Option<ActorSortBy>, order: SortOrder, a: Actor, b: Actor)
    requires StringLe(a.name, b.name) && a.name != b.name
    ensures ActorOrder(sortBy, order)(b, a) <==> sortBy == Some(ActorName) && order == Desc
  {
    if StringLe(b.name, a.name) {
      StringLeAntisymmetric(a.name, b.name);
    }
  }

  /** With no key given the key is `Name`, so `desc` alone sorts the
      names descending. */
  lemma UnsetActorKeyFollowsOrder(order: SortOrder, a: Actor, b: Actor)
    requires StringLe(a.name, b.name) && a.name != b.name
    ensures ActorOrder(UnsetActorSortBy, order)(b, a) <==> order == Desc
  {
    ActorOrderDirection(UnsetActorSortBy, order, a, b);
  }

  // ---------------------------------------------------------------------
  // The service

  class ShowActorService {
    const db: ShowStore

    constructor (db: ShowStore)
      ensures this.db == db
    {
      this.db := db;
    }

    method AddActorToShowAsync(showId: int, actorId: int) returns (r: Outcome)
      requires db.Valid()
      modifies db`shows
      ensures db.Valid()
      ensures var res := AddActorToShow(old(db.shows), db.actors, showId, actorId);
        && (res.Ok? ==> r == Pass && db.shows == res.value)
        && (res.Err? ==> r == Fail(res.message) && db.shows == old(db.shows))
    {
      var i := ShowIndex(db.shows, showId);
      if i.None? {
        return Fail(ShowNotFound);
      }
      if actorId !in ActorIds(db.actors) {
        return Fail(ActorNotFound);
      }
      var s := db.shows[i.value];
      if actorId !in s.actors {
        AddLinkSpec(s.actors, actorId);
        UpdateLinksKeepsValid(db.genres, db.actors, db.shows, db.favorites, i.value,
                              s.(actors := s.actors + [actorId]));
        db.shows := db.shows[i.value := s.(actors := s.actors + [actorId])];
      }
      r := Pass;
    }

    method RemoveActorFromShowAsync(showId: int, actorId: int) returns (r: Outcome)
      requires db.Valid()
      modifies db`shows
      ensures db.Valid()
      ensures var res := RemoveActorFromShow(old(db.shows), showId, actorId);
        && (res.Ok? ==> r == Pass && db.shows == res.value)
        && (res.Err? ==> r == Fail(res.message) && db.shows == old(db.shows))
    {
      var i := ShowIndex(db.shows, showId);
      if i.None? {
        return Fail(ShowNotFound);
      }
      var s := db.shows[i.value];
      if actorId in s.actors {
        assert LinksValid(s, db.genres, db.actors);
        RemoveLinkOnSet(s.actors, actorId);
        UpdateLinksKeepsValid(db.genres, db.actors, db.shows, db.favorites, i.value,
                              s.(actors := RemoveLink(s.actors, actorId)));
        db.shows := db.shows[i.value := s.(actors := RemoveLink(s.actors, actorId))];
      } else {
        RemoveLinkSpec(s.actors, actorId);
        assert s.(actors := RemoveLink(s.actors, actorId)) == s;
      }
      r := Pass;
    }
  }
}
