# ShowTracker core, modelled in Dafny

ShowTracker is a media-catalogue web API: shows, genres, actors and each
user's favourites, behind JWT authentication. This project models the parts
of it that carry real logic, and proves what they promise.

- **Session service (`AuthService`).** Login, logout and refresh-token
  rotation with reuse detection, over the refresh-token table. The table is a
  `seq<RefreshToken>` field of the class `Auth.AuthService`, and the methods
  update it in place, as the service does through the ORM. The methods are
  proved against pure functions of the old table (`Refresh`, `Logout`,
  `Login`). The lemmas then state what each outcome means: `Invalid`,
  `Reused` with its fan-out over one user, and `Success` with its rotation
  link. A table invariant (`ValidTable`) is kept by every operation. It says
  that token strings are unique and that rotation links point forward to a
  token of the same user.
- **Token text.** A refresh token is 64 random bytes in standard base64,
  after which `+` becomes `-` and `/` becomes `_`. The model proves that
  this is the URL- and filename-safe base64 of section 5 of RFC 4648. The
  result is 88 characters long with its `=` padding kept, and it decodes
  back to the bytes.
- **Refresh-token record.** The `IsExpired` and `IsActive` properties of
  the record.
- **Query parameters and paged responses.** The `PageSize` clamp,
  `ToPaginatedDtoAsync` and `ToExportResponseAsync`.
- **Relationship services.** `ShowGenresService`, `ShowActorService` and
  `FavoritesService` keep the show–genre and show–actor links and each
  user's favourites. They mutate fields of a shared `Catalog.ShowStore`.
  `GenreService` keeps the genre catalogue and its name checks.
- **Recommendations.** The rule of `RecommendationService`: filter, score,
  order, page.
- **Registration form.** The client-side guards of the registration form.
  The password regular expression is proved equal to the policy it
  describes in words.

Time is an integer count of 100-nanosecond ticks and is passed in as `now`.
The random bytes of a new token are passed in as `random`, with the
precondition that their text is not already in the table. The identity
library is an oracle. Users are passed in as a sequence, and the verdict of
`PasswordSignInAsync` and `CreateAsync` is passed in as a boolean.

Three facts about the code shape the model:
- `RegisterAsync` creates the user and issues no tokens
  (`AuthService.cs:42-54`).
- The access token carries the claims `sub`, `email` and `displayName`, and
  no roles (`AuthService.cs:140-145`).
- `RevokeAllUserRefreshTokens` loops over the user's active tokens and sets
  `Revoked` on each row in turn (`AuthService.cs:129-136`).

## Model

| member | source | states |
|---|---|---|
| `RefreshTokens.ExpiryBoundary` | src/ShowTracker.Api/Entities/RefreshToken.cs:15-16 | a token is expired, and so not active, at exactly its `Expires`; an unrevoked token is active one tick before |
| `RefreshTokens.RevokedIsNeverActive` | src/ShowTracker.Api/Entities/RefreshToken.cs:15 | a token with `Revoked` set is never active, whatever its expiry |
| `RefreshTokens.ExpiryIsMonotone` | src/ShowTracker.Api/Entities/RefreshToken.cs:16 | expired at `now` implies expired (and inactive) at every later time |
| `RefreshTokens.InactiveStaysInactive` | src/ShowTracker.Api/Entities/RefreshToken.cs:15-16 | a token inactive at `now` stays inactive at every later time |
| `Query.Wrap32` | src/ShowTracker.Api/Mappings/PaginationExtensions.cs:27 | C# `int` arithmetic: equals the exact value when it fits in 32 bits, and otherwise differs from it by a multiple of 2^32 |
| `Query.ClampPageSize` | src/ShowTracker.Api/Dtos/QueryParameters.cs:7-15 | the stored page size is at most 50; a value above 50 stores 50, any other value (0 and negatives included) is stored unchanged |
| `Query.ClampIdempotent` | src/ShowTracker.Api/Dtos/QueryParameters.cs:15 | a stored page size is a fixed point of the setter |
| `Query.QueryParameters.constructor` | src/ShowTracker.Api/Dtos/QueryParameters.cs:8-20 | defaults: page 1, page size 10, the sort key `default(T)` (the enumeration's value 0), ascending, JSON |
| `Query.QueryParameters.SetPageSize` | src/ShowTracker.Api/Dtos/QueryParameters.cs:12-16 | the setter writes the clamped value to the backing field; afterwards page size ≤ 50 |
| `Query.QueryParameters.SetPage` | src/ShowTracker.Api/Dtos/QueryParameters.cs:10 | `Page` is stored as given, with no bound |
| `Auth.FindUserById` | src/ShowTracker.Api/Services/AuthService.cs:83 | the identity lookup by id returns a known user with that id, or nothing exactly when no user has it |
| `Auth.FindUserByEmail` | src/ShowTracker.Api/Services/AuthService.cs:61 | the identity lookup by e-mail compares normalised (upper-cased) addresses: it returns a known user whose address matches, or nothing exactly when no user's does |
| `Auth.NormalizeEmail` | src/ShowTracker.Api/Services/AuthService.cs:61 | the normalised address has the same length, with each ASCII lower-case letter upper-cased |
| `Auth.NormalizeEmailIdempotent` | src/ShowTracker.Api/Services/AuthService.cs:61 | normalising twice is normalising once |
| `Auth.FindUserByEmailIgnoresCase` | src/ShowTracker.Api/Services/AuthService.cs:61 | addresses that differ only in letter case find the same user |
| `Auth.LoginIgnoresCaseExample` | src/ShowTracker.Api/Services/AuthService.cs:58-71 | a user stored as `alice@example.com` who signs in as `Alice@Example.com` gets tokens |
| `Auth.IndexOf` | src/ShowTracker.Api/Services/AuthService.cs:77 | the token lookup finds the first row holding the string, or nothing exactly when no row holds it |
| `Auth.AuthService.RegisterAsync` | src/ShowTracker.Api/Services/AuthService.cs:42-54 | returns the new user exactly when the identity library creates it, else null; touches no token |
| `Auth.AuthService.LoginAsync` | src/ShowTracker.Api/Services/AuthService.cs:56-72 | given the 64 random bytes of a new token, the new table and the returned pair are those of `Login` on the old table; the table invariant is kept |
| `Auth.AuthService.RefreshTokenAsync` | src/ShowTracker.Api/Services/AuthService.cs:74-115 | the new table and status are those of `Refresh`; only `Success` returns tokens, the refresh token being the appended row's text; the table invariant is kept |
| `Auth.AuthService.LogoutAsync` | src/ShowTracker.Api/Services/AuthService.cs:117-126 | the new table is `Logout` of the old one; the invariant is kept |
| `Auth.AuthService.RevokeAllUserRefreshTokens` | src/ShowTracker.Api/Services/AuthService.cs:129-136 | the loop revokes at `now` exactly the rows of the user that are active, leaving every other row as it was |
| `Auth.RefreshKeepsValid` | src/ShowTracker.Api/Services/AuthService.cs:74-115 | every outcome of a refresh keeps token strings unique and rotation links forward, same-user and one-to-one |
| `Auth.RotateKeepsValid` | src/ShowTracker.Api/Services/AuthService.cs:104-111 | revoking an active row, linking it to a fresh token and appending that token keeps the invariant |
| `Auth.LoginKeepsValid` | src/ShowTracker.Api/Services/AuthService.cs:64-70 | appending the login token keeps the invariant |
| `Auth.LogoutKeepsValid` | src/ShowTracker.Api/Services/AuthService.cs:117-126 | a logout keeps the invariant |
| `Auth.RefreshUnknownIsInvalid` | src/ShowTracker.Api/Services/AuthService.cs:77-81 | a string not in the table is `Invalid` and changes nothing |
| `Auth.RefreshOrphanIsInvalid` | src/ShowTracker.Api/Services/AuthService.cs:83-87 | a token whose owner the identity library cannot find is `Invalid` and changes nothing, in whatever state the token is |
| `Auth.RefreshRotatedIsReused` | src/ShowTracker.Api/Services/AuthService.cs:89-95 | a revoked token with a replacement link is `Reused`, expired or not: no row is added, the owner's active rows are revoked now, none of the owner's rows is active afterwards, already-revoked rows keep their timestamps, other users' rows are untouched |
| `Auth.RefreshInactiveIsInvalid` | src/ShowTracker.Api/Services/AuthService.cs:97-101 | an inactive token that is not rotated is `Invalid` and changes nothing |
| `Auth.RefreshActiveIsSuccess` | src/ShowTracker.Api/Services/AuthService.cs:103-114 | an active token is `Success`: its row gets `Revoked = now` and the link to the new token; exactly one row is appended, for the same user, unrevoked, unlinked, expiring 7 days on, active; every other row is unchanged |
| `Auth.ReplayAfterRotationIsReused` | src/ShowTracker.Api/Services/AuthService.cs:89-114 | after a `Success` on a token, presenting it again at any time is `Reused`, and the token that replaced it is no longer active |
| `Auth.LogoutRevokes` | src/ShowTracker.Api/Services/AuthService.cs:117-126 | logout of a stored token sets `Revoked = now`, overwriting an earlier timestamp, keeps the replacement link, makes the token inactive for good and touches no other row |
| `Auth.LogoutUnknownIsNoOp` | src/ShowTracker.Api/Services/AuthService.cs:119-125 | logout of an unknown string changes nothing and is not an error |
| `Auth.LogoutTwice` | src/ShowTracker.Api/Services/AuthService.cs:117-126 | two logouts equal one logout at the later time |
| `Auth.RefreshAfterLogoutIsInvalid` | src/ShowTracker.Api/Services/AuthService.cs:89-101 | a token logged out before any rotation is `Invalid` when presented, not `Reused`, and the table is left as the logout left it |
| `Auth.LoginFailureChangesNothing` | src/ShowTracker.Api/Services/AuthService.cs:58-62 | a failed password check, or an e-mail whose normalised form no user has, returns null and changes nothing |
| `Auth.LoginIssuesOneToken` | src/ShowTracker.Api/Services/AuthService.cs:64-71 | a login appends exactly one active token, for the user with that e-mail, expiring 7 days on; existing rows are unchanged; the pair returned holds that token and an access token for that user |
| `TokenEncoding.Replace` | src/ShowTracker.Api/Services/AuthService.cs:169 | `Replace` keeps the length and substitutes exactly the occurrences of one character |
| `TokenEncoding.EncodeLength` | src/ShowTracker.Api/Services/AuthService.cs:169 | base64 output has 4 characters per started group of 3 bytes |
| `TokenEncoding.EncodeUrlSafeIsSubstituted` | src/ShowTracker.Api/Services/AuthService.cs:169 | each character of the RFC 4648 section 5 (base64url) encoding is the RFC 4648 section 4 (base64) character with `+` read as `-` and `/` read as `_` |
| `TokenEncoding.RefreshTokenTextIsUrlSafeBase64` | src/ShowTracker.Api/Services/AuthService.cs:169 | the two substitutions turn standard base64 into URL-safe base64 (section 5 of RFC 4648) |
| `TokenEncoding.EncodeShape` | src/ShowTracker.Api/Services/AuthService.cs:169 | the encoding ends in exactly the `=` padding its length needs, and has no other `=` |
| `TokenEncoding.EncodeUrlSafeDigits` | src/ShowTracker.Api/Services/AuthService.cs:169 | every other character is a digit of the RFC 4648 section 5 (base64url) alphabet |
| `TokenEncoding.DecodeEncode` | src/ShowTracker.Api/Services/AuthService.cs:163-169 | decoding the token text gives back the random bytes |
| `TokenEncoding.EncodeInjective` | src/ShowTracker.Api/Services/AuthService.cs:163-169 | distinct random bytes never give the same token text |
| `TokenEncoding.RefreshTokenShape` | src/ShowTracker.Api/Services/AuthService.cs:163-169 | a generated token is 88 characters long, holds no `+` or `/`, keeps its two `=` of padding, and decodes back to the 64 bytes |
| `Ordering.StringLeTotal` | src/ShowTracker.Api/Services/GenreService.cs:35-40 | text order compares every pair of names |
| `Ordering.StringLeTransitive` | src/ShowTracker.Api/Services/GenreService.cs:35-40 | text order is transitive |
| `Ordering.StringLeAntisymmetric` | src/ShowTracker.Api/Services/GenreService.cs:35-40 | names that are each at most the other are equal |
| `Ordering.PrefixIsLess` | src/ShowTracker.Api/Services/GenreService.cs:35-40 | a name sorts before every name it is a prefix of |
| `Ordering.SortIsSortedPermutation` | src/ShowTracker.Api/Services/ShowGenresService.cs:42-47 | the sort holds exactly the input rows, in the requested order |
| `Ordering.ByTextIsTotalPreorder` | src/ShowTracker.Api/Services/ShowGenresService.cs:42-47 | `OrderBy` and `OrderByDescending` on a text key are total preorders |
| `Ordering.ByIntIsTotalPreorder` | src/ShowTracker.Api/Services/FavoriteService.cs:49-50 | ordering by release date either way is a total preorder |
| `Ordering.ThenByIsTotalPreorder` | src/ShowTracker.Api/Services/RecommendationService.cs:62-70 | score descending and then a secondary key is a total preorder |
| `Ordering.ThenBySortedMeans` | src/ShowTracker.Api/Services/RecommendationService.cs:62-70 | along a result in that order the score never increases, and equal scores follow the secondary key |
| `Pagination.PageItemsAreSlice` | src/ShowTracker.Api/Mappings/PaginationExtensions.cs:27 | a page is the rows at indices `[(Page-1)*PageSize, (Page-1)*PageSize + PageSize)`, cut at the end, in order, so at most `PageSize` of them |
| `Pagination.PageOfSorted` | src/ShowTracker.Api/Mappings/PaginationExtensions.cs:27 | a page holds only rows of the query and keeps their order |
| `Pagination.PageBeforeFirstIsFirst` | src/ShowTracker.Api/Mappings/PaginationExtensions.cs:27 | a page number below 1 gives a negative skip and so the first page |
| `Pagination.TotalPagesIsCeiling` | src/ShowTracker.Api/Mappings/PaginationExtensions.cs:35 | `TotalPages` is the least number of pages of that size that hold every row; 0 for no rows |
| `Pagination.TotalPagesNegative` | src/ShowTracker.Api/Mappings/PaginationExtensions.cs:35 | a negative page size gives a page count of 0 or less |
| `Pagination.ToPaginatedDtoShape` | src/ShowTracker.Api/Mappings/PaginationExtensions.cs:26-35 | `TotalCount` is the number of rows and does not depend on `Page`, nor does `TotalPages`; `PageNumber` and `PageSize` echo the parameters; at most a page of items, none for a size of 0 or less |
| `Pagination.PagesArePrefix` | src/ShowTracker.Api/Mappings/PaginationExtensions.cs:27 | pages 1 to n are the first n·PageSize rows |
| `Pagination.PagesReassemble` | src/ShowTracker.Api/Mappings/PaginationExtensions.cs:27-35 | pages 1 to `TotalPages`, concatenated, give back every row in order |
| `Pagination.ExportResponseShape` | src/ShowTracker.Api/Mappings/PaginationExtensions.cs:51-59 | the export holds every row; `TotalCount` is their number; `PageNumber` and `TotalPages` are 1; `PageSize` is the number of rows, or 1 when there are none |
| `Pagination.OffsetAsWrittenWithoutOverflow` | src/ShowTracker.Api/Mappings/PaginationExtensions.cs:27 | when `(Page-1)*PageSize` fits in 32 bits, the skip as written is the true offset |
| `Pagination.PageItemsAsWrittenWithoutOverflow` | src/ShowTracker.Api/Mappings/PaginationExtensions.cs:27-28 | when `(Page-1)*PageSize` fits in 32 bits, the page served as written is the page `PageItems` describes |
| `Pagination.OffsetOverflowServesFirstPage` | src/ShowTracker.Api/Mappings/PaginationExtensions.cs:27 | page 42949674 of size 50 wraps to a negative skip and serves the first 50 rows, where the true page is empty |
| `Catalog.ShowIndex` | src/ShowTracker.Api/Services/ShowGenresService.cs:61-63 | the show lookup finds a row with that id, or nothing exactly when no show has it |
| `Catalog.GenreIndex` | src/ShowTracker.Api/Services/GenreService.cs:106 | the genre lookup finds a row with that id, or nothing exactly when no genre has it |
| `Catalog.AddLinkSpec` | src/ShowTracker.Api/Services/ShowGenresService.cs:77-80 | add-if-absent: a link already there changes nothing, otherwise it is appended once; every other multiplicity is unchanged; adding twice is adding once; a duplicate-free list stays so |
| `Catalog.RemoveLinkSpec` | src/ShowTracker.Api/Services/ShowGenresService.cs:97-101 | `List.Remove` drops exactly the first occurrence and keeps the order of the rest; an absent link leaves the list unchanged |
| `Catalog.RemoveLinkOnSet` | src/ShowTracker.Api/Services/FavoriteService.cs:113 | on a duplicate-free list, removal takes out that element and no other, and removing twice is removing once |
| `Catalog.Distinct` | src/ShowTracker.Api/Services/ShowGenresService.cs:122 | `Distinct` has no duplicates and the same elements as its input |
| `Catalog.NoDupsSubsetLength` | src/ShowTracker.Api/Services/ShowGenresService.cs:122 | a duplicate-free list inside another is no longer, and equally long only when both hold the same elements |
| `ShowGenres.FoundGenreIds` | src/ShowTracker.Api/Services/ShowGenresService.cs:117-119 | the genres found are exactly the requested ids that name a genre |
| `ShowGenres.FoundGenreIdsNoDups` | src/ShowTracker.Api/Services/ShowGenresService.cs:117-119 | the genres found are distinct |
| `ShowGenres.LinkedGenres` | src/ShowTracker.Api/Services/ShowGenresService.cs:39-40 | the genres listed are exactly those linked to the show |
| `ShowGenres.AddGenreErrors` | src/ShowTracker.Api/Services/ShowGenresService.cs:61-75 | a missing show is reported before a missing genre, and the add succeeds exactly when both exist |
| `ShowGenres.AddGenreEffect` | src/ShowTracker.Api/Services/ShowGenresService.cs:77-80 | a linked genre leaves the table unchanged; otherwise it is appended once to that show; no other show or field changes; adding twice is adding once |
| `ShowGenres.RemoveGenreEffect` | src/ShowTracker.Api/Services/ShowGenresService.cs:92-102 | a missing show throws; otherwise only that genre leaves that show, and an unlinked genre is a no-op |
| `ShowGenres.ReplaceSucceedsIffAllFound` | src/ShowTracker.Api/Services/ShowGenresService.cs:117-125 | replace fails with "One or more genres not found." exactly when some requested id names no genre; duplicate ids do not cause a failure |
| `ShowGenres.ReplaceEffect` | src/ShowTracker.Api/Services/ShowGenresService.cs:127-128 | after a replace the show's genres are the requested ids, once each, and no other show changes |
| `ShowGenres.GetGenresSpec` | src/ShowTracker.Api/Services/ShowGenresService.cs:33-52 | fails only for a missing show; otherwise one page of the names of exactly the show's genres, in the requested name order |
| `ShowGenres.GenreOrderDirection` | src/ShowTracker.Api/Services/ShowGenresService.cs:42-47 | names sort descending exactly for `(Name, desc)`; any other combination sorts ascending |
| `ShowGenres.UnsetGenreKeyFollowsOrder` | src/ShowTracker.Api/Services/ShowGenresService.cs:42-47 | with no sort key given (`Name`, the value 0), names sort descending exactly when `desc` is asked for |
| `ShowGenres.ShowGenresService.AddGenreToShowAsync` | src/ShowTracker.Api/Services/ShowGenresService.cs:58-83 | the show table becomes that of `AddGenreToShow`, or stays as it was and the error is returned; the catalogue stays consistent |
| `ShowGenres.ShowGenresService.RemoveGenreFromShowAsync` | src/ShowTracker.Api/Services/ShowGenresService.cs:85-103 | the show table becomes that of `RemoveGenreFromShow`, or stays as it was on error |
| `ShowGenres.ShowGenresService.ReplaceGenresForShowAsync` | src/ShowTracker.Api/Services/ShowGenresService.cs:105-131 | the show table becomes that of `ReplaceGenresForShow`, or stays as it was on error |
| `Favorites.FavoriteShows` | src/ShowTracker.Api/Services/FavoriteService.cs:40-43 | the shows listed are exactly the user's favourites |
| `Favorites.AddFavoriteErrors` | src/ShowTracker.Api/Services/FavoriteService.cs:76-85 | an unknown user is reported before an unknown show, and the add succeeds exactly when both exist |
| `Favorites.AddFavoriteEffect` | src/ShowTracker.Api/Services/FavoriteService.cs:87-91 | an existing favourite changes nothing; otherwise the show is appended once to that user's favourites; other users are untouched; adding twice is adding once |
| `Favorites.RemoveFavoriteSpec` | src/ShowTracker.Api/Services/FavoriteService.cs:102-114 | an unknown user throws, then a show that is not a favourite throws "Show not in favorites"; otherwise exactly that show leaves the user's favourites, the rest keep their order, other users are untouched, and a second remove throws |
| `Favorites.GetFavoritesSpec` | src/ShowTracker.Api/Services/FavoriteService.cs:34-58 | fails only for an unknown user; otherwise one page of exactly the user's favourites in the requested order |
| `Favorites.FavoriteOrderIsTotalPreorder` | src/ShowTracker.Api/Services/FavoriteService.cs:45-52 | every sort the switch can choose, including title ascending for a value no arm names, is a total preorder |
| `Favorites.UnsetFavoriteKeyIsTitle` | src/ShowTracker.Api/Services/FavoriteService.cs:45-52 | with no sort key given (`Title`, the value 0), titles sort descending exactly when `desc` is asked for and ascending otherwise |
| `Favorites.FavoritesService.AddFavoriteAsync` | src/ShowTracker.Api/Services/FavoriteService.cs:68-92 | favourites become those of `AddFavorite`, or stay as they were and the error is returned |
| `Favorites.FavoritesService.RemoveFavoriteAsync` | src/ShowTracker.Api/Services/FavoriteService.cs:94-115 | favourites become those of `RemoveFavorite`, or stay as they were and the error is returned |
| `ShowActors.LinkedActors` | src/ShowTracker.Api/Services/ShowActorService.cs:33-35 | the actors listed are exactly those linked to the show; none when there is no such show |
| `ShowActors.AddActorErrors` | src/ShowTracker.Api/Services/ShowActorService.cs:61-70 | "Show not found." is reported before "Actor not found.", and the add succeeds exactly when both exist |
| `ShowActors.AddActorEffect` | src/ShowTracker.Api/Services/ShowActorService.cs:72-76 | a linked actor changes nothing; otherwise it is appended once to that show only; adding twice is adding once |
| `ShowActors.RemoveActorEffect` | src/ShowTracker.Api/Services/ShowActorService.cs:86-96 | a missing show throws; otherwise only that actor leaves that show, and an unlinked actor is a no-op |
| `ShowActors.GetActorsSpec` | src/ShowTracker.Api/Services/ShowActorService.cs:33-48 | exactly the show's actors, in the requested order: all of them unless the format is JSON, one page otherwise |
| `ShowActors.ActorOrderDirection` | src/ShowTracker.Api/Services/ShowActorService.cs:37-41 | names sort descending exactly for `(Name, desc)`, ascending otherwise |
| `ShowActors.UnsetActorKeyFollowsOrder` | src/ShowTracker.Api/Services/ShowActorService.cs:37-41 | with no sort key given (`Name`, the value 0), names sort descending exactly when `desc` is asked for |
| `ShowActors.ShowActorService.AddActorToShowAsync` | src/ShowTracker.Api/Services/ShowActorService.cs:54-77 | the show table becomes that of `AddActorToShow`, or stays as it was on error |
| `ShowActors.ShowActorService.RemoveActorFromShowAsync` | src/ShowTracker.Api/Services/ShowActorService.cs:79-97 | the show table becomes that of `RemoveActorFromShow`, or stays as it was on error |
| `Genres.NextGenreId` | src/ShowTracker.Api/Data/Migrations/20250925123727_AddGenresAndRelationships.cs:19-20 | the key given to a new genre is above every key in the table and above every key ever used, and it is one more than one of those |
| `Genres.CreateGenreSpec` | src/ShowTracker.Api/Services/GenreService.cs:67-79 | create fails with "Genre already exists." exactly on a stored name (exact match); otherwise it adds one genre with that name under a key never used before, and creating it again fails |
| `Genres.NewNamesSpec` | src/ShowTracker.Api/Services/GenreService.cs:86-91 | the batch keeps each name not stored, in input order, as often as it occurs |
| `Genres.CreateGenresSpec` | src/ShowTracker.Api/Services/GenreService.cs:81-98 | a null or empty batch adds nothing; otherwise the added genres are exactly the names not stored, with their multiplicities, under consecutive keys above every key ever used; a batch of stored names adds nothing |
| `Genres.BatchKeepsDuplicates` | src/ShowTracker.Api/Services/GenreService.cs:89-90 | two equal new names in one batch add two genres with that name |
| `Genres.DeletedGenreKeyIsNotReused` | src/ShowTracker.Api/Data/Migrations/20250925123727_AddGenresAndRelationships.cs:19-20 | a genre created after a delete gets neither the deleted key nor any key the table held before |
| `Genres.CreateGenresKeepsIdsUnique` | src/ShowTracker.Api/Services/GenreService.cs:95 | genre keys stay unique after a batch |
| `Genres.UpdateGenreSpec` | src/ShowTracker.Api/Services/GenreService.cs:101-114 | update fails exactly for an unknown key; otherwise only that genre's name changes |
| `Genres.UpdateAllowsDuplicateName` | src/ShowTracker.Api/Services/GenreService.cs:112 | renaming to another genre's name succeeds: there is no uniqueness check |
| `Genres.DeleteGenreSpec` | src/ShowTracker.Api/Services/GenreService.cs:116-129 | delete fails exactly for an unknown key; otherwise that genre, and only it, leaves the table and every show, and the catalogue stays consistent |
| `Genres.GetAllGenresSpec` | src/ShowTracker.Api/Services/GenreService.cs:24-52 | one page of all genres in the requested name order |
| `Genres.GenreService.CreateGenreAsync` | src/ShowTracker.Api/Services/GenreService.cs:67-79 | returns `CreateGenre` of the old table and key counter, appends the new genre only on success and then records its key as the largest used |
| `Genres.GenreService.CreateGenresAsync` | src/ShowTracker.Api/Services/GenreService.cs:81-99 | the loop returns `CreateGenres` of the old table and key counter; exactly those genres are appended and the last of their keys is recorded as the largest used |
| `Genres.GenreService.UpdateGenreAsync` | src/ShowTracker.Api/Services/GenreService.cs:101-114 | the genre table becomes that of `UpdateGenre`, or stays as it was on error |
| `Genres.GenreService.DeleteGenreAsync` | src/ShowTracker.Api/Services/GenreService.cs:116-129 | genres and shows become those of `DeleteGenre`, or stay as they were on error |
| `Recommendations.SharedGenreCount` | src/ShowTracker.Api/Services/RecommendationService.cs:59 | the shared-genre count is at most the show's genre count, and positive exactly when some genre is shared |
| `Recommendations.SharedGenreCountIsFilterLength` | src/ShowTracker.Api/Services/RecommendationService.cs:59 | the count is the number of the show's genres that are favourite genres |
| `Recommendations.Candidates` | src/ShowTracker.Api/Services/RecommendationService.cs:55 | the candidates are exactly the shows that are not favourites and share a genre |
| `Recommendations.NothingWithoutFavorites` | src/ShowTracker.Api/Services/RecommendationService.cs:31-44 | a null or empty user id, or a user with no favourites, gets an empty list |
| `Recommendations.SecondaryOrderIsTotalPreorder` | src/ShowTracker.Api/Services/RecommendationService.cs:62-70 | every secondary key the switch can choose, including release date descending for a value no arm names, is a total preorder |
| `Recommendations.UnsetSecondaryKeyIsTitle` | src/ShowTracker.Api/Services/RecommendationService.cs:64-70 | with no sort key given (`Title`, the value 0), equal scores are ordered by title, descending exactly when `desc` is asked for |
| `Recommendations.RecommendationsArePageOfRanking` | src/ShowTracker.Api/Services/RecommendationService.cs:52-77 | the result is one page of the candidates ordered by score descending, then by the secondary key |
| `Recommendations.RecommendationsRanked` | src/ShowTracker.Api/Services/RecommendationService.cs:52-77 | every result is a show of the catalogue, not a favourite, shares a genre with a favourite and scores at least 1; scores never increase along the result; ties follow the secondary key; at most `PageSize` results |
| `RegisterForm.LookaheadFinds` | src/ShowTracker.Web/app/routes/register.tsx:25 | a successful lookahead has found a character of its class |
| `RegisterForm.LookaheadOnAllowed` | src/ShowTracker.Web/app/routes/register.tsx:25 | on allowed characters a lookahead succeeds whenever its class occurs |
| `RegisterForm.RegexIsPolicy` | src/ShowTracker.Web/app/routes/register.tsx:25 | the pattern accepts a password exactly when it has ≥ 8 characters, all in `[A-Za-z0-9@$!%*?&]`, with a lowercase letter, an uppercase letter, a digit and one of `@$!%*?&` |
| `RegisterForm.ValidatePriority` | src/ShowTracker.Web/app/routes/register.tsx:20-36 | mismatch is reported first, then the policy, then the terms; the request is sent exactly when all three pass |
| `RegisterForm.AcceptsExample` | src/ShowTracker.Web/app/routes/register.tsx:25 | `Passw0rd!` meets the policy |
| `RegisterForm.RefusesWithoutSpecial` | src/ShowTracker.Web/app/routes/register.tsx:25 | a password without a special character is refused, however long |
| `RegisterForm.RefusesSpace` | src/ShowTracker.Web/app/routes/register.tsx:25 | a space is not an allowed character |

## Left out

- Access tokens: the JWT build and HMAC-SHA256 signing (`AuthService.cs:138-159`) are a library call. An access token is the datatype of its claims (subject, e-mail, display name, expiry 15 minutes on), with no signature, issuer or audience.
- Randomness: `RandomNumberGenerator` is the parameter `random`, the 64 bytes it would fill. The precondition that their text is not in the table stands in for the entropy argument.
- Clock: `DateTime.UtcNow` is one parameter `now` per operation. The source reads the clock several times in one call, once per row in the revocation loop and once in each `IsActive`. Differences of a few ticks within one call are not modelled.
- Identity library: `UserManager` and `SignInManager` are oracles. Users are a sequence, the password check is the boolean `signInSucceeded`, and user creation is the boolean `created` plus the id it assigns. Password hashing, lockout and role assignment are not modelled.
- Persistence: `SaveChangesAsync`, change tracking and transactions are not modelled. Each operation updates the in-memory tables at once. A store failure part-way through cannot be expressed.
- Concurrency: the read-modify-write of a rotation has no transaction or concurrency guard in the source. Two refreshes racing on one token cannot be expressed in this sequential model, so the model says nothing about them.
- Query translation: the revocation query filters on the computed property `IsActive`. The model evaluates it per row as written. Whether the ORM can translate that filter to SQL is not modelled.
- Memory cache: cache entries and their `CancellationTokenSource` invalidation in every service are a library side channel. Every read is modelled as computed afresh.
- Pagination.PageItems: `Skip` and `Take` follow LINQ semantics, so a negative take yields nothing. On SQLite a negative `LIMIT` means no limit, so a negative page size would return every row from the offset on. That case is not modelled.
- Pagination.ToPaginatedDto: pages with the corrected offset of `PageItems`, as the Findings row says. The source's wrapping skip (`PageItemsAsWritten`) agrees with it whenever `(Page - 1) * PageSize` fits in 32 bits (`Pagination.PageItemsAsWrittenWithoutOverflow`).
- Genres.GetAllGenres: pages with the corrected offset of `PageItems`; the source's skip wraps at 32 bits (`GenreService.cs:42`).
- ShowGenres.GetGenresForShow: pages with the corrected offset of `PageItems`; the source's skip wraps at 32 bits (`ShowGenresService.cs:49`).
- Favorites.GetFavorites: pages with the corrected offset of `PageItems`; the source's skip wraps at 32 bits (`FavoriteService.cs:54`).
- Recommendations.GetRecommendations: pages with the corrected offset of `PageItems`; the source's skip wraps at 32 bits (`RecommendationService.cs:72`).
- Auth.NormalizeEmail: upper-cases ASCII letters only. `ToUpperInvariant` also upper-cases other scripts; those are not modelled.
- Pagination.TotalPages: the floating-point ceiling is integer ceiling division. For a page size of 0 the source divides by zero in floating point and casts infinity or NaN to `int`; the model returns `None` there.
- Sort ties: the database returns rows with equal sort keys in an unspecified order. The listing lemmas therefore state the result for some order that sorts by the key (`IsOrderingOf`). The functions compute one such order, an insertion sort. Text compares by code point, as SQLite's default `BINARY` collation does.
- DTO mapping: `ToDto`, `ToSummaryDto` and `ToShowSummaryDto` copy fields. Results are the entity rows themselves, or the genre names for `GetGenresForShowAsync`.
- Genre keys: SQLite assigns them under AUTOINCREMENT. `ShowStore.genreKeysUsed` stands for the table's `sqlite_sequence` entry. Running out of 64-bit keys (`SQLITE_FULL`) is not modelled.
- Deleting a genre also removes its show links, through the cascade on the join table that the schema configures (`ShowStoreContext.cs` is not part of this model).
- Users: the `Users` table in the favourites and recommendations services is the key set of the favourites map, with one entry for every user.
- Sort keys: the `GenreSortBy`, `ShowSortBy` and `ActorSortBy` enumerations are not part of this model. Each is modelled with the members the `switch` arms name. `None` is a value no member names. `SortBy` is declared `T?` under `where T : Enum`, which does not make it nullable, so an unset key is `default(T)`, the value 0.
- Query.QueryParameters.constructor: takes `default(T)` as its argument `zero`. The listings assume each enumeration is declared without explicit numbers, in the order its `switch` arms name it, so value 0 is `Name` or `Title` (`Catalog.UnsetGenreSortBy`, `Catalog.UnsetActorSortBy`, `Catalog.UnsetShowSortBy`).
- ShowGenres.GenreOrder: with no sort key the key is `Name` (value 0), under the numbering assumption above.
- ShowActors.ActorOrder: with no sort key the key is `Name` (value 0), under the numbering assumption above.
- Favorites.FavoriteOrder: with no sort key the key is `Title` (value 0), under the numbering assumption above.
- Recommendations.SecondaryOrder: with no sort key the key is `Title` (value 0), under the numbering assumption above. Were `ReleaseDate` numbered 0, an unset key would break ties by release date ascending.
- Registration form: only the guards in `handleSubmit` are modelled. React state (`setError`, `setLoading`), the request and navigation are not.
- The plain CRUD services, mappers, controllers, report export, the e-mail job, migrations and seed data carry no logic beyond what the modelled services show. They are not part of this model.

## Findings

| source | as written | input that shows it | evidently intended | confidence | as-written member | corrected member |
|---|---|---|---|---|---|---|
| src/ShowTracker.Api/Mappings/PaginationExtensions.cs:27 | the skip `(Page - 1) * PageSize` is computed in unchecked 32-bit `int`, so a large page number wraps to a negative skip, which skips nothing. The same expression is at `GenreService.cs:42`, `ShowGenresService.cs:49`, `FavoriteService.cs:54` and `RecommendationService.cs:72`. | `Page = 42949674`, `PageSize = 50`, at least 50 rows: the skip is 2147483650, which wraps to -2147483646, and the first page is served | a page past the end is empty | medium (not executed) | `Pagination.OffsetOverflowServesFirstPage` | `Pagination.PageItemsAreSlice` |
