# playlists — a Dafny model of the band, playlist and account core

The playlists server lets users keep bands, their members, and their set-list
playlists of songs. Its core has three layers, and all three are modelled here:

- **Ownership-scoped repositories** (`UserRepository`, `BandRepository`,
  `PlaylistRepository`). They run over one PostgreSQL state, `Schema.Db`:
  - one sequence of rows per table, kept in insertion order;
  - one id counter per table;
  - an insertion clock that stands in for `created_at`.

  Each repository method is a pure function from a state and its arguments
  to a new state and the Go result. Driver failures enter through a `Fault`,
  which names the external call (query, Exec, RowsAffected, bcrypt,
  Begin/Commit) that fails. `Schema.Wf` states the constraints the database
  keeps:
  - primary keys;
  - a unique `users.email`;
  - foreign keys with `ON DELETE CASCADE`;
  - creation order.

  `Tenancy` proves that no call by one user changes what another user owns.
- **Request handlers over the repositories** (`AuthHandler`, `BandHandler`,
  `PlaylistHandler`). Each reduces to a total function from the request (its
  path ids, decoded body, clock and the repository's outcome) to an HTTP
  status and body. The authentication middleware is a decision: rejected
  with a message, or admitted with the identity the request context carries.
- **Slice-backed in-memory handlers** (`MemoryTodos`, `MemoryBands`,
  `MemoryPlaylist`, `MemoryAuth`). Each package keeps a global slice plus a
  `nextID` counter. A handler is a function from that state and the request
  to the new state and the reply (`Http.Step`). `MemoryPlaylist` also holds
  the artist and user-name autocomplete. It has a reference definition
  (`Suggestions`) and a loop (`Autocomplete`) proved equal to it.

Cryptography and encodings are abstract:
- bcrypt is an injective salted digest (`Bcrypt`).
- A JWT is the claims record with the algorithm and key that signed it
  (`Jwt`). RFC 7519 token text is read through a `decode` parameter.
- The clock is an integer number of seconds.

`strconv.Atoi` and `strconv.Itoa` are modelled concretely (`Decimal`). So are
the few `strings` functions the handlers use (`Text`), restricted to ASCII.

Shared pieces:
- `Wrappers`: `Option`, `Result`, `Outcome` and the fault channel.
- `Seqs`: filter, map, first match, remove-at, and the ordering predicates.
- `Http`: the response type and the outcome-to-status mappings.

Behaviour of the program worth knowing before reading the contracts:
- **Signature algorithm.** The key function returns the secret for every
  HMAC algorithm, so an HS384 or HS512 token signed with the secret is
  accepted (`Jwt.SignatureVerifies`).
- **Unowned or deleted bands.** For a band the user does not own, or one
  that has been deleted, the playlist repository returns a nil slice and no
  error. `GET` of its playlists or of a playlist's songs is then 200 with the
  JSON body `null`, not 404. The model returns the empty sequence there.
- **`updated_at`.** No statement of the program reads it back, and the model
  does not record it.
- **`UpdateUser` blank fields.** `COALESCE` never applies, because the driver
  sends empty strings, not NULL. So a blank field overwrites the old value.

## Model

| member | source | states |
|---|---|---|
| UserRepository.GetUserByEmail | internal/database/user_repository.go:132-149 | a query failure is a wrapped error; otherwise the user found has that e-mail, and "none" means no user has it (absence is not an error) |
| UserRepository.GetUserByID | internal/database/user_repository.go:105-129 | found exactly when the id exists; the result is that user without the password hash |
| UserRepository.CreateUser | internal/database/user_repository.go:65-102 | a taken e-mail fails with "email already exists"; success exactly when no user has the e-mail and no call fails; on success the new row (next id, bcrypt hash of the password) is appended and the hash-free user returned; every failure leaves the state unchanged |
| UserRepository.AuthenticateUser | internal/database/user_repository.go:152-177 | success only for a stored user with the e-mail whose hash accepts the password; an unknown e-mail and a wrong password give the same "invalid credentials" error |
| UserRepository.UpdateUser | internal/database/user_repository.go:180-229 | a missing id is nil and no change; another account's e-mail is never taken over; on success exactly that user's three fields are overwritten (blank ones included) |
| UserRepository.UpdatePassword | internal/database/user_repository.go:232-261 | the user's hash is replaced once the UPDATE runs; "user not found" exactly when no row has the id; a rows-affected failure comes after the write and is reported as an error |
| UserRepository.DeleteUser | internal/database/user_repository.go:264-282 | the user and (by cascade) their bands are gone; "user not found" exactly when the id was absent; a rows-affected failure after the delete is reported as an error |
| UserRepository.GetAllUsers | internal/database/user_repository.go:285-311 | every user, newest first, without hashes |
| UserRepository.GetUsersCount | internal/database/user_repository.go:314-324 | the number of user rows |
| UserRepository.UsersCountIsNumberOfUsers | internal/database/user_repository.go:314-324 | in a well-formed database the count equals the number of distinct user ids |
| UserRepository.EmailLookupUnique | internal/database/user_repository.go:132-149 | with unique e-mails the lookup returns the one user holding the address |
| UserRepository.AuthenticateIff | internal/database/user_repository.go:152-177 | login succeeds if and only if some user has the e-mail and a hash accepting the password |
| UserRepository.CreateThenAuthenticate | internal/database/user_repository.go:65-177 | a newly created account authenticates with its password and yields the same user |
| UserRepository.UpdatePasswordThenAuthenticate | internal/database/user_repository.go:232-261 | after a password change the new password logs in and every other password, the old one included, does not |
| UserRepository.UpdateUserEmailRules | internal/database/user_repository.go:186-199 | a nonempty e-mail held by another account is refused with "email already exists" and nothing changes; a user may keep their own e-mail |
| UserRepository.RemoveUser | internal/database/user_repository.go:264-270 | the remaining users are exactly those with another id |
| UserRepository.CreateUserPreservesWf | internal/database/user_repository.go:65-102 | creation keeps every table constraint, unique e-mails included |
| UserRepository.UpdateUserPreservesWf | internal/database/user_repository.go:180-229 | profile updates keep every table constraint |
| UserRepository.UpdatePasswordPreservesWf | internal/database/user_repository.go:232-261 | password changes keep every table constraint |
| UserRepository.DeleteUserPreservesWf | internal/database/user_repository.go:264-282 | deleting a user with its cascade keeps every foreign key satisfied |
| BandRepository.GetBandMembers | internal/database/band_repository.go:244-259 | exactly the members whose band id matches |
| BandRepository.GetBandsByUserID | internal/database/band_repository.go:80-111 | one entry per owned band, newest first, each with its own members and member count equal to their number; success exactly when every query succeeds |
| BandRepository.GetBandByID | internal/database/band_repository.go:114-143 | a band only when both id and owner match, carrying exactly its members in stored order; a wrong owner and a missing id both give nil without error; an error exactly when a query fails |
| BandRepository.CreateBand | internal/database/band_repository.go:146-196 | all or nothing: success exactly when every call succeeds and the owner exists; then the band is owned by the caller and holds one member per request, in request order, with the band's id; any failure leaves the state unchanged |
| BandRepository.UpdateBand | internal/database/band_repository.go:199-217 | a non-owner or missing id gives nil and no change; an owner's update changes only name and description |
| BandRepository.DeleteBand | internal/database/band_repository.go:220-241 | removes only a band matching (id, owner), with its members, playlists and songs; no error when nothing matched |
| BandRepository.AddBandMember | internal/database/band_repository.go:262-288 | ownership checked first; an unowned band gives nil and no change; an error exactly when the check or the INSERT fails; otherwise the member is appended to that band |
| BandRepository.UpdateBandMember | internal/database/band_repository.go:291-321 | ownership checked first; only a member of the given band is changed; an error exactly when the check or the UPDATE fails |
| BandRepository.DeleteBandMember | internal/database/band_repository.go:324-353 | ownership checked first; for an owned band success exactly when the check, the DELETE and RowsAffected all succeed, and a failing DELETE is reported; only a member of the given band is removed; only the members table changes |
| BandRepository.GetBandMemberByID | internal/database/band_repository.go:356-385 | ownership checked first; a member is returned only if it belongs to the given band; nil exactly when the band is unowned or has no such member; an error exactly when a query fails, the SELECT's as "failed to get band member" |
| BandRepository.VerifyOwnership | internal/database/band_repository.go:264-272 | the check answers whether the band is owned by the user |
| BandRepository.MembersInCreationOrder | internal/database/band_repository.go:244-259 | members come back ordered by their `created_at` stamps |
| BandRepository.BandsExactlyOwned | internal/database/band_repository.go:80-111 | the listed bands are exactly the user's bands, each once, with member counts matching |
| BandRepository.BandsNewestFirst | internal/database/band_repository.go:80-111 | the listed bands are in strictly decreasing creation order |
| BandRepository.DeleteMemberKeepsOrder | internal/database/band_repository.go:324-353 | deleting a member keeps the other members of the band in their order |
| BandRepository.CreateThenGetBand | internal/database/band_repository.go:114-196 | a created band is found by GetBandByID, exactly as CreateBand returned it |
| BandRepository.CreateBandPreservesWf | internal/database/band_repository.go:146-196 | band creation keeps every table constraint |
| BandRepository.DeleteBandPreservesWf | internal/database/band_repository.go:220-241 | the cascading delete keeps every foreign key satisfied |
| BandRepository.AddBandMemberPreservesWf | internal/database/band_repository.go:262-288 | adding a member keeps every table constraint |
| PlaylistRepository.GetPlaylistsByBandID | internal/database/band_playlist_repository.go:79-121 | an unowned band gives an empty list; an owned band gives its playlists newest first, each with exactly its songs and a song count equal to their number |
| PlaylistRepository.GetPlaylistByID | internal/database/band_playlist_repository.go:124-164 | a playlist only when the band is owned and the playlist belongs to it, then with its songs; nil exactly when the band is unowned or the playlist is not in it |
| PlaylistRepository.CreatePlaylist | internal/database/band_playlist_repository.go:167-198 | an unowned band gives nil and no change, and nil arises only that way; otherwise a playlist of that band with no songs and song count 0 is appended |
| PlaylistRepository.UpdatePlaylist | internal/database/band_playlist_repository.go:201-230 | only the playlist matching (id, band) of an owned band changes; nil exactly when the band is unowned or the playlist is not in it; no change otherwise |
| PlaylistRepository.DeletePlaylist | internal/database/band_playlist_repository.go:233-262 | an owned band's playlist is removed with all its songs; no error when nothing matched |
| PlaylistRepository.RemovePlaylist | internal/database/band_playlist_repository.go:245-261 | exactly the (id, band) playlist and its songs leave; nothing else changes |
| PlaylistRepository.GetPlaylistSongs | internal/database/band_playlist_repository.go:265-292 | only songs of a playlist of the owned band, sorted by position then creation |
| PlaylistRepository.AddSong | internal/database/band_playlist_repository.go:295-331 | inserts only when the playlist belongs to the owned band; nil exactly when the band is unowned or the playlist is not in it; nothing inserted otherwise |
| PlaylistRepository.UpdateSong | internal/database/band_playlist_repository.go:334-366 | only a song matching (id, playlist) whose playlist belongs to the owned band changes; nil exactly when the band is unowned, the playlist is not in it, or no such song exists |
| PlaylistRepository.DeleteSong | internal/database/band_playlist_repository.go:369-403 | only a song matching (id, playlist) whose playlist belongs to the owned band is removed; only the songs table changes |
| PlaylistRepository.PlaylistSongsOrder | internal/database/band_playlist_repository.go:277-283 | in a well-formed database the song list is the one arrangement sorted by (position, created_at) |
| PlaylistRepository.CreateThenGetPlaylist | internal/database/band_playlist_repository.go:124-198 | a created playlist is found, empty, by GetPlaylistByID |
| PlaylistRepository.AddSongThenListed | internal/database/band_playlist_repository.go:265-331 | an added song appears in the playlist's song list |
| PlaylistRepository.DeletePlaylistThenGet | internal/database/band_playlist_repository.go:124-262 | after a delete the playlist is not found and none of its songs remain |
| PlaylistRepository.DeletePlaylistPreservesWf | internal/database/band_playlist_repository.go:233-262 | the cascading delete keeps every constraint |
| PlaylistRepository.AddSongPreservesWf | internal/database/band_playlist_repository.go:295-331 | adding a song keeps every constraint |
| SongOrder.SortSongs | internal/database/band_playlist_repository.go:282 | the result is sorted by (position, created_at) and a permutation of the input |
| SongOrder.SortedUnique | internal/database/band_playlist_repository.go:282 | when creation stamps identify songs, two sorted permutations of the same songs are equal |
| SongOrder.SortSongsIsTheOrder | internal/database/band_playlist_repository.go:282 | the sort returns exactly the sorted arrangement of its input |
| Schema.DeleteBands | internal/database/band_repository.go:220-241 | the selected bands go and with them exactly their members, playlists and those playlists' songs; users stay |
| Schema.DeleteBandsIsolated | internal/database/band_repository.go:220-241 | deleting one tenant's bands with their cascades leaves every other tenant's view unchanged |
| Schema.DeleteNothing | internal/database/band_repository.go:220-241 | a delete matching no band changes nothing |
| Tenancy.DeleteBandIsolated | internal/database/band_repository.go:220-241 | a user's band delete never changes another user's bands, members, playlists or songs |
| Tenancy.CreateBandIsolated | internal/database/band_repository.go:146-196 | a user's band creation leaves every other user's view unchanged |
| Tenancy.UpdateSongIsolated | internal/database/band_playlist_repository.go:334-366 | a song update never reaches another tenant's songs |
| Tenancy.DeletePlaylistIsolated | internal/database/band_playlist_repository.go:233-262 | a playlist delete never reaches another tenant's playlists or songs |
| Tenancy.ApplyPreservesWf | internal/database/band_playlist_repository.go:79-403 | every repository call, failing or not, keeps the database well formed |
| Tenancy.ApplyIsolated | internal/database/band_repository.go:80-385 | no call of user u changes the view of any other user v |
| Tenancy.RunIsolated | internal/database/band_playlist_repository.go:79-403 | any sequence of one user's calls keeps the database well formed and leaves every other user's view as it was |
| Bcrypt.CompareGenerated | internal/database/user_repository.go:164 | a generated hash accepts exactly the password it was generated from |
| Jwt.IssueClaims | internal/handlers/auth_handler.go:228-239 | expiry is one 24-hour lifetime after issue, not-before and issued-at are the issue time, issuer "playlists-app", subject the decimal user id |
| Jwt.Parse | internal/handlers/auth_handler.go:175-188 | claims come back exactly when the token decodes, its HMAC key is the secret, and the clock is inside its validity window; they are the token's own claims |
| Jwt.IssuedTokenLifetime | internal/handlers/auth_handler.go:228-245 | a token issued at t is accepted exactly at times in [t, t + 24h), with the claims it was issued with |
| Jwt.ForgedTokenRejected | internal/handlers/auth_handler.go:175-177 | a token signed with another key is rejected |
| Text.TrimPrefix | internal/handlers/auth_handler.go:172 | with the prefix present the input is prefix plus result; without it the input is unchanged |
| Text.TrimPrefixUnchangedIff | internal/handlers/auth_handlers.go:216-220 | for a nonempty prefix, trimming changes nothing exactly when the prefix is absent |
| Text.ContainsIffOccurs | internal/handlers/auth_handler.go:51 | substring test holds exactly when the needle occurs at some offset |
| Text.ToLower | internal/handlers/playlist_handlers.go:140 | same length, each character lower-cased |
| Text.ToLowerIdempotent | internal/handlers/playlist_handlers.go:132 | lower-casing leaves no upper-case letter and is idempotent |
| Text.TrimSpace | internal/handlers/playlist_handlers.go:132 | the result is a slice of the input with no white space at either end |
| Decimal.AtoiItoa | internal/handlers/auth_handler.go:236 | parsing the decimal spelling of any 64-bit value gives the value back |
| Decimal.AtoiRejectsNonDigit | internal/handlers/band_handler.go:74-78 | a path id containing a non-digit (other than a leading sign) is rejected |
| Http.FromLookup | internal/handlers/band_handler.go:80-89 | a repository error is 500, nil is 404 with the given message, a value is the success status |
| Http.FromList | internal/handlers/band_handler.go:28-39 | a list read is 200 exactly when the repository succeeded, else 500 |
| Http.FromOutcome | internal/handlers/band_handler.go:143-149 | a delete is 204 exactly when the repository returned no error, whatever it removed |
| BandHandler.GetBands | internal/handlers/band_handler.go:28-39 | a 200 exactly when every query succeeds, listing the user's bands newest first, each with exactly its members; otherwise a 500 "Failed to get bands" |
| BandHandler.CreateBand | internal/handlers/band_handler.go:42-68 | a bad body or an empty name is a 400 before the repository; a 201 exactly when the body is valid, every call succeeds and the owner exists; the 201 carries the stored band and its members built from the request with consecutive ids and stamps, appended in order; otherwise a 500 "Failed to create band" |
| BandHandler.GetBand | internal/handlers/band_handler.go:71-93 | a non-integer id is a 400; a 200 exactly when the id parses, the calls succeed and the band is owned, with its members in stored order; an unowned band is a 404 "Band not found"; a failing query is a 500 "Failed to get band" |
| BandHandler.UpdateBand | internal/handlers/band_handler.go:96-131 | an empty name is a 400 before the repository; a 200 exactly when the UPDATE succeeds on an owned band; a failure is a 500 "Failed to update band"; an unowned band is a 404 "Band not found" |
| BandHandler.DeleteBand | internal/handlers/band_handler.go:134-150 | a 204 exactly when the repository returns no error, owned or not; the state is the cascading delete of the (id, owner) band; an error is a 500 "Failed to delete band" |
| BandHandler.GetBandMembers | internal/handlers/band_handler.go:153-176 | a 200 exactly when the band is owned and its lookup succeeds, with exactly the band's members in stored order; an unowned band is a 404; a failing lookup is a 500 "Failed to verify band ownership" |
| BandHandler.AddBandMember | internal/handlers/band_handler.go:179-215 | an empty name or role is a 400; an unowned band is a 404 "Band not found"; a failing check or INSERT is a 500 "Failed to add band member"; a 201 appends the member with the next id |
| BandHandler.UpdateBandMember | internal/handlers/band_handler.go:218-260 | a bad body or an empty name or role is a 400; a 200 exactly when the band is owned and has the member; an unowned band or a missing member is a 404 "Band member not found"; a failure is a 500 "Failed to update band member" |
| BandHandler.DeleteBandMember | internal/handlers/band_handler.go:263-286 | for an owned band, a 204 exactly when all three calls succeed, removing exactly the matching member; an unowned band is a 204 with no change; any error is a 500 "Failed to delete band member" |
| PlaylistHandler.ParseIds | internal/handlers/band_playlist_handler.go:52-63 | the band id is parsed before the playlist id, each failure with its own 400 message |
| PlaylistHandler.GetPlaylists | internal/handlers/band_playlist_handler.go:28-46 | an unowned band is a 200 with no playlists, not a 404; for an owned band, a 200 exactly when every query succeeds, listing its playlists newest first, each with exactly its songs; otherwise a 500 "Failed to get playlists" |
| PlaylistHandler.GetPlaylist | internal/handlers/band_playlist_handler.go:49-79 | a 200 exactly when the calls succeed, the band is owned and the playlist belongs to it; a 404 "Playlist not found" exactly when the band is unowned or the playlist is not in it; otherwise a 500 "Failed to get playlist" |
| PlaylistHandler.CreatePlaylist | internal/handlers/band_playlist_handler.go:82-119 | an empty name is a 400; an unowned band is a 404 "Band not found"; a failing call is a 500 "Failed to create playlist"; a 201 appends the playlist with the next id and no songs |
| PlaylistHandler.UpdatePlaylist | internal/handlers/band_playlist_handler.go:122-165 | an empty name is a 400; a 404 "Playlist not found" exactly when the band is unowned or the playlist is not in it; otherwise, a failure is a 500 "Failed to update playlist"; a 200 changes only that playlist |
| PlaylistHandler.DeletePlaylist | internal/handlers/band_playlist_handler.go:168-192 | a 204 whenever the repository returns no error, owned or not; an owned delete removes the playlist with its songs; an error is a 500 "Failed to delete playlist" |
| PlaylistHandler.GetPlaylistSongs | internal/handlers/band_playlist_handler.go:195-220 | an unowned band is a 200 with no songs; for an owned band, a 200 exactly when the queries succeed, with exactly the playlist's songs in playing order; otherwise a 500 "Failed to get playlist songs" |
| PlaylistHandler.AddSong | internal/handlers/band_playlist_handler.go:223-267 | an empty artist or song is a 400; a 201 exactly when the calls succeed and the playlist belongs to the owned band, appending the song with the next id; a 404 "Playlist not found" exactly when the band is unowned or the playlist is not in it; otherwise a 500 "Failed to add song" |
| PlaylistHandler.UpdateSong | internal/handlers/band_playlist_handler.go:270-320 | a non-integer song id, a bad body, or an empty artist or song is a 400; a 200 exactly when the song is in a playlist of the owned band; a 404 "Song not found" exactly when the band is unowned, the playlist is not in it, or the song is missing; otherwise a 500 "Failed to update song" |
| PlaylistHandler.DeleteSong | internal/handlers/band_playlist_handler.go:323-354 | an unowned band is a 204 with no change; for an owned band, a 204 exactly when all three calls succeed, removing exactly the matching song; any error is a 500 "Failed to delete song" |
| AuthHandler.GenerateJwt | internal/handlers/auth_handler.go:220-251 | fails only when the random token id cannot be drawn; otherwise an HS256 token with the claims set as issued |
| AuthHandler.Issue | internal/handlers/auth_handler.go:60-66 | a token failure is 500 "Error generating token"; otherwise the reply carries the token and the hash-free user |
| AuthHandler.Register | internal/handlers/auth_handler.go:33-80 | empty e-mail or password is 400; a taken e-mail is 409; 201 exactly when the body is valid, the e-mail is free and no call fails; a token failure after the insert is 500 "Error generating token" with the account kept; any other failure is 500 "Error creating user" with no change; only the insert appends a user |
| AuthHandler.Login | internal/handlers/auth_handler.go:83-125 | any authentication error is 401 "Invalid credentials"; 200 only for a user whose hash accepts the password; a 500 is only "Error generating token", when no token id could be drawn |
| AuthHandler.GetProfile | internal/handlers/auth_handler.go:128-145 | a lookup error is 500, a missing user 404 "User not found" |
| AuthHandler.Middleware | internal/handlers/auth_handler.go:156-217 | empty header, no "Bearer " prefix and a bad token are each rejected with their message; for a valid token a failed lookup is "User verification failed" and a vanished user "User not found"; admitted exactly when all checks pass, with the claims' user id and e-mail |
| AuthHandler.LoginIff | internal/handlers/auth_handler.go:83-125 | with unique e-mails, login succeeds exactly for a stored e-mail with a matching password when the lookup and token id do not fail; with valid credentials a missing token id is 500 "Error generating token" |
| AuthHandler.MiddlewareOnToken | internal/handlers/auth_handler.go:156-217 | a Bearer header carrying a correctly signed token of an existing user is admitted exactly while the token's time window holds, as the token's user id and e-mail |
| AuthHandler.LoginThenAdmitted | internal/handlers/auth_handler.go:156-251 | a token from a successful login is admitted exactly during [now, now + 24h), for that user, while the user lookup succeeds |
| AuthHandler.RegisterThenLogin | internal/handlers/auth_handler.go:33-125 | a just-registered user logs in with the same password and gets the same user |
| MemoryTodos.GetTodos | internal/handlers/todo_handlers.go:19-22 | a 200 with the stored todos, in stored order |
| MemoryTodos.CreateTodo | internal/handlers/todo_handlers.go:24-39 | the todo gets id nextID whatever the client sent, is appended, and the counter increments; no text validation |
| MemoryTodos.UpdateTodo | internal/handlers/todo_handlers.go:41-67 | the first todo with the path id is replaced in place, keeping that id; otherwise 404 and no change |
| MemoryTodos.DeleteTodo | internal/handlers/todo_handlers.go:69-86 | the first todo with the id is removed and the rest keep their order; otherwise 404 and no change |
| MemoryTodos.CreateTodoInv | internal/handlers/todo_handlers.go:32-33 | ids stay increasing and below the counter, hence unique |
| MemoryTodos.UpdateTodoInv | internal/handlers/todo_handlers.go:56-66 | an in-place update keeps ids increasing and unique |
| MemoryTodos.DeleteTodoInv | internal/handlers/todo_handlers.go:77-85 | a delete keeps ids increasing and unique |
| MemoryTodos.DeleteTodoRemovesExactly | internal/handlers/todo_handlers.go:77-85 | with unique ids, after a delete the remaining todos are exactly those with another id |
| MemoryTodos.CreateThenListed | internal/handlers/todo_handlers.go:19-39 | a created todo appears, last, in the listing |
| MemoryBands.GetBands | internal/handlers/band_handlers.go:34-46 | exactly the bands owned by the user, in stored order, so ids ascend when the store keeps them ascending |
| MemoryBands.CreateBand | internal/handlers/band_handlers.go:49-79 | empty name is 400 and no change; otherwise a band with id nextBandID, owner the user and member count 0 is appended and the counter increments |
| MemoryBands.GetBand | internal/handlers/band_handlers.go:82-100 | the first band with the id that the user owns; otherwise a 404 "Band not found" |
| MemoryBands.UpdateBand | internal/handlers/band_handlers.go:103-137 | only name and description of the first owned match change; id, owner and member count are kept; a non-owner gets 404 |
| MemoryBands.DeleteBand | internal/handlers/band_handlers.go:140-158 | only the first owned match is removed, the rest keep their order; a non-owner gets 404 |
| MemoryBands.CreateBandThenListed | internal/handlers/band_handlers.go:34-79 | a created band is listed last among the creator's bands |
| MemoryBands.OtherUsersUnaffected | internal/handlers/band_handlers.go:34-158 | no create, update or delete by one user changes another user's listing |
| MemoryBands.DeleteBandRemovesExactly | internal/handlers/band_handlers.go:140-158 | after an owned delete the bands left are exactly those with another id |
| MemoryPlaylist.GetPlaylist | internal/handlers/playlist_handlers.go:22-25 | a 200 with the stored entries, in stored order |
| MemoryPlaylist.AddToPlaylist | internal/handlers/playlist_handlers.go:27-48 | empty artist, song or user name is 400 and no change; otherwise the entry gets id nextPlaylistID whatever the client sent and is appended |
| MemoryPlaylist.UpdatePlaylistEntry | internal/handlers/playlist_handlers.go:50-82 | the first entry with the path id is replaced in place with that id forced; otherwise 404 and no change |
| MemoryPlaylist.DeletePlaylistEntry | internal/handlers/playlist_handlers.go:84-101 | the first entry with the id is removed, the rest keep their order; otherwise 404 |
| MemoryPlaylist.GetPlaylistEntry | internal/handlers/playlist_handlers.go:103-120 | the first entry with the id, or 404 |
| MemoryPlaylist.DistinctMatches | internal/handlers/playlist_handlers.go:136-149 | a value is in the result exactly when it occurs in the input and contains the needle case-insensitively; no value twice (case-sensitive) |
| MemoryPlaylist.Suggestions | internal/handlers/playlist_handlers.go:123-157 | an empty query gives none; otherwise at most 10, all matching the trimmed lower-cased query, none twice |
| MemoryPlaylist.DistinctMatchesOrder | internal/handlers/playlist_handlers.go:136-149 | matches come in the order of their first appearance |
| MemoryPlaylist.SuggestionsOrder | internal/handlers/playlist_handlers.go:143-153 | suggestions come in first-appearance order |
| MemoryPlaylist.SuggestionsComplete | internal/handlers/playlist_handlers.go:136-153 | below the cap every matching value is suggested |
| MemoryPlaylist.Autocomplete | internal/handlers/playlist_handlers.go:123-157 | the loop with its seen-map computes exactly the reference suggestions |
| MemoryPlaylist.GetArtists | internal/handlers/playlist_handlers.go:123-157 | the suggestions over the entries' artists |
| MemoryPlaylist.GetUserNames | internal/handlers/playlist_handlers.go:160-194 | the suggestions over the entries' user names |
| MemoryPlaylist.AddToPlaylistInv | internal/handlers/playlist_handlers.go:41-43 | entry ids stay increasing, below the counter, and unique |
| MemoryPlaylist.DeleteEntryRemovesExactly | internal/handlers/playlist_handlers.go:92-100 | after a delete the entries left are exactly those with another id |
| MemoryPlaylist.AddThenGetEntry | internal/handlers/playlist_handlers.go:27-120 | an added entry is found again by the decimal spelling of its id, for any id in the 64-bit range |
| MemoryAuth.GenerateJwt | internal/handlers/auth_handlers.go:248-265 | an HS256 token expiring 24h after issue, issuer "playlists-app", with the user's id and e-mail |
| MemoryAuth.Register | internal/handlers/auth_handlers.go:57-117 | bad body or empty e-mail or password is 400; an existing e-mail is 409; otherwise a user with id nextUserID and the bcrypt hash is appended and the counter increments; every non-201 leaves users and counter unchanged |
| MemoryAuth.Login | internal/handlers/auth_handlers.go:120-176 | the first user with the e-mail must accept the password; an unknown e-mail and a wrong password are the same 401 |
| MemoryAuth.GetProfile | internal/handlers/auth_handlers.go:179-198 | the user with the id, without the password, or 404 "User not found" |
| MemoryAuth.Middleware | internal/handlers/auth_handlers.go:207-245 | empty header and a header that trimming "Bearer " leaves unchanged are rejected; admitted exactly for a valid token, without a user lookup |
| MemoryAuth.RegisterInv | internal/handlers/auth_handlers.go:72-95 | ids stay unique and increasing and e-mails stay unique |
| MemoryAuth.LoginIff | internal/handlers/auth_handlers.go:137-155 | with unique e-mails, login succeeds exactly for a stored e-mail whose hash accepts the password |
| MemoryAuth.RegisterThenLogin | internal/handlers/auth_handlers.go:57-176 | a just-registered user logs in with the same password and gets the same user |
| MemoryAuth.LoginThenAdmitted | internal/handlers/auth_handlers.go:120-265 | a login token is admitted exactly during its 24-hour lifetime, for that user |

## Left out

- SQL execution, sqlx, the pq driver and transaction I/O. A transaction is an all-or-nothing state update. Driver failures are the uninterpreted `Fault`.
- The schema's constraints are not in the source. They are assumed: primary keys, unique `users.email`, foreign keys with `ON DELETE CASCADE`.
- `created_at` is an insertion counter. The model does not reproduce the per-transaction `CURRENT_TIMESTAMP` that a band and its initial members share.
- `updated_at` is not modelled.
- SERIAL gaps after failed inserts are not modelled: a failed insert does not advance the counter.
- JSON encoding and decoding. A body that does not decode is `None`. A nil slice and an empty one are not told apart, so the in-memory GetBands and the autocomplete may encode `null` where the model returns an empty sequence.
- PlaylistHandler.GetPlaylists and PlaylistHandler.GetPlaylistSongs: for an unowned band the repository returns a nil slice, which encodes as `null`. The model's reply is the empty sequence.
- BandRepository.MembersInCreationOrder: a band's initial members are inserted in one transaction and share one `CURRENT_TIMESTAMP`, so their relative order in `ORDER BY created_at` is up to the database. The lemma rests on the model's strictly increasing clock.
- BandRepository.CreateThenGetBand: "exactly as CreateBand returned it" includes the order of the initial members. For the reason above, the program only guarantees the same members, not the same order.
- Routing (chi), CORS, the no-op Logout handlers, application wiring, configuration and the frontend.
- Concurrency. The in-memory handlers' unsynchronised globals are modelled as sequential state.
- bcrypt internals, including its 72-byte password limit and cost. A hash is an injective salted digest.
- HMAC signing and token text. `decode` is a parameter that turns a string into a token.
- `time.Now`. The clock is a parameter in seconds.
- `crypto/rand`. The random token id is an `Option` parameter; `None` is a failure.
- `strings.ToLower`, `strings.TrimSpace` and `unicode.IsSpace` are modelled for ASCII only.
- Integer width of ids. Go `int` counters are unbounded here. Overflow after 2^63 ids is not modelled.
- AuthHandler.Middleware: the "Invalid token claims" branch is not modelled. The claims type assertion cannot fail once parsing succeeds with the `Claims` type.
- MemoryPlaylist.Suggestions: a query that is only white space trims to the empty needle, which every value contains. The model reproduces this rather than treating it as empty.
