# Photo-sharing backend persistence layer, modelled in Dafny

This project models the persistence layer of a photo-sharing social network backend
(`service/database`) as an in-memory relational store. Users register and rename
themselves, follow and ban one another, upload and delete photos, and like and comment on
them. Each store operation is a short sequence of SQL statements over six tables:
`users`, `followers`, `bans`, `photos`, `likes` and `comments`. The model also covers the
API layer's username check and the user conversions in `service/api/struct.go`.

Layout:

- `records.dfy` (module `Records`): the record types, the sentinel errors and the
  driver errors the model keeps, and the photo row stored for a `Photo`.
- `likes.dfy` (module `LikeRows`): the likes table as a sequence of rows, which may
  repeat because the table has no key. Holds the three like queries (per-pair count,
  per-photo count, keyed delete), the `UPDATE photos SET likes` statement, and the
  like-counter invariant with its lemmas. The counters stay right only while every like
  row names a photo id already issued. The code does not keep that invariant: see
  "## Findings".
- `queries.dfy` (module `Queries`): a scan of the photos table in key order filtered by
  owner, and a stable insertion sort by date, most recent first.
- `store.dfy` (module `Database`): class `Store`. It has one field per table and one
  AUTOINCREMENT counter per keyed table. Each write operation is a method; `GetPhoto`,
  `GetStream` and `GetUserProfile` are functions that read the state.
- `api.dfy` (module `Api`): the username predicate and the API `User` class.
- `scenarios.dfy` (module `Scenarios`): clients that combine several store calls.

Modelling choices:

- Ids are unbounded naturals. Each AUTOINCREMENT counter is one more than the largest id
  that table has ever issued, and the first id is 1. `Store.Valid()` says every key is
  below its counter, so a new id differs from every id issued before.
- Timestamps are integers. The current time that `CommentPhoto` reads is a parameter.
- The only failures modelled are the sentinel errors, a primary-key violation on insert
  (`ConstraintViolation`) and a single-row query that finds no row (`NoRows`). Other
  driver errors do not occur in the model. So `DeleteFollowerUser`, `DeletePhoto`,
  `DeleteLike`, `DeleteComment` and `CreatePhoto` always succeed and return no error.
- The code, not the design intent, decides each behaviour. A ban does not remove the
  follow edge. The username check is an unanchored search for one ASCII letter or digit,
  with no length bound. Usernames are unique only because `CreateUser` checks; the table
  does not enforce it and `UpdateUser` does not check. No operation rejects self-follow
  or self-ban. There is no unban operation.

## Model

| member | source | states |
|---|---|---|
| `Records.PhotoOf` | service/database/photo-user.go:45-52 | the reference definition of the Photo built from a stored row and its key (also get-stream.go:31-38); `Records.RowOf`, `Database.Store.GetPhoto` and `Database.Store.GetStream` state their results through it |
| `Records.RowOf` | service/database/photo-user.go:7-8 | the row stored for a photo turns back into that same photo when read under its id |
| `LikeRows.PairCount` | service/database/like-photo.go:6-12 | the existence count LikePhoto checks: positive exactly when some like row is the (u, p) pair, which decides ErrLikesExists in `Database.Store.LikePhoto` |
| `LikeRows.LikeCount` | service/database/like-photo.go:21 | the per-photo like count is zero exactly when no like row names the photo, and never exceeds the number of rows |
| `LikeRows.WithoutPair` | service/database/like-photo.go:34 | the keyed delete removes every (user, photo) row and keeps every other row exactly as often as before |
| `LikeRows.SetLikes` | service/database/like-photo.go:26 | the counter update changes only the likes column of the photo with that id, if it exists; other rows and columns stay |
| `LikeRows.LikeCountAppend` | service/database/like-photo.go:14-21 | inserting a like row raises its photo's count by one and leaves every other photo's count unchanged |
| `LikeRows.PairCountBelowLikeCount` | service/database/like-photo.go:6-21 | a pair's row count never exceeds its photo's row count |
| `LikeRows.LikeCountWithoutPair` | service/database/like-photo.go:34-40 | deleting the (u, p) rows lowers p's count by exactly their number and leaves every other photo's count unchanged |
| `LikeRows.WithoutAbsentPair` | service/database/like-photo.go:34 | deleting a pair that has no row leaves the likes table unchanged |
| `LikeRows.LikeRecountKeepsCounters` | service/database/like-photo.go:14-26 | if every counter matched its row count, it still does after LikePhoto's insert and recount |
| `LikeRows.UnlikeRecountKeepsCounters` | service/database/like-photo.go:34-45 | if every counter matched its row count, it still does after DeleteLike's delete and recount |
| `LikeRows.UnlikeAbsentIsNoOp` | service/database/like-photo.go:33-56 | with correct counters, DeleteLike on a never-liked pair changes neither table |
| `LikeRows.LikeKeepsOneLikePerPair` | service/database/like-photo.go:5-15 | inserting a pair that had no row keeps at most one row per pair |
| `LikeRows.UnlikeKeepsOneLikePerPair` | service/database/like-photo.go:34 | the keyed delete keeps at most one row per pair |
| `Queries.ScanPhotos` | service/database/profile-user.go:39-52 | the scan returns exactly the stored photos whose owner is selected, each as stored, in strictly increasing key order |
| `Queries.ScanPhotosLength` | service/database/profile-user.go:10-11 | the scan's length equals the number of selected rows below the bound |
| `Queries.ScanPhotosCountsAll` | service/database/profile-user.go:10-11 | when every key is below the bound, the scan's length equals the COUNT(*) of the same owner filter over the whole table |
| `Queries.InsertByDate` | service/database/get-stream.go:7 | inserting adds exactly one element: the result is a permutation of the input plus the new photo |
| `Queries.InsertByDateDescending` | service/database/get-stream.go:7 | inserting into a list sorted by date (newest first) keeps it sorted |
| `Queries.InsertByDateDistinct` | service/database/get-stream.go:7 | inserting a photo with a new id keeps ids distinct |
| `Queries.SortByDateDesc` | service/database/get-stream.go:7 | ORDER BY date DESC: the result is a permutation of the input with dates non-increasing |
| `Queries.SortByDateDescDistinct` | service/database/get-stream.go:7 | sorting keeps ids distinct |
| `Queries.ReorderedScan` | service/database/get-stream.go:7 | reordering the scan keeps exactly its rows: every element is a selected stored photo and every selected photo is present |
| `Queries.SelectByDateDesc` | service/database/get-stream.go:7 | returns each stored photo with a selected owner exactly once, and nothing else, newest first |
| `Database.FollowedNotBanned` | service/database/get-stream.go:7 | an owner is selected iff the user follows them and has not banned them (the two sub-queries) |
| `Database.ProfileEntry` | service/database/profile-user.go:47-50 | the reference definition of a profile entry, a Photo with only likes and url set; `Database.ProfileEntries` and `Database.Store.GetUserProfile` state the photo list through it |
| `Database.Entries` | service/database/profile-user.go:39-52 | the append loop: one entry per scanned photo, in the scan's order, and nothing else |
| `Database.ProfileEntries` | service/database/profile-user.go:28-52 | the profile's photo list has one entry, url and likes only, per photo the user owns. Each entry occurs exactly as often as the user owns photos with that url and like count; so its length is the photo count, every entry comes from an owned photo, and every owned photo has an entry |
| `Database.EntryCountIsMultiplicity` | service/database/profile-user.go:39-52 | the number of photos of a list giving an entry is that entry's multiplicity in the list's entries |
| `Database.EntryCountByIds` | service/database/profile-user.go:39-52 | in a list with strictly increasing keys, the number of photos giving an entry is the number of their keys |
| `Database.ScanIdsGiving` | service/database/profile-user.go:39-52 | the keys of the owner scan whose photo gives an entry are exactly the keys of the user's photos giving it |
| `Database.ProfileEntriesCount` | service/database/profile-user.go:39-52 | over the whole table, each entry of the profile scan occurs once per owned photo that gives it |
| `Database.Store.constructor` | service/database/database.go:115-185 | the six freshly created tables are empty, every AUTOINCREMENT counter issues 1 first, and usernames are unique, counters agree, likes are at most one per pair and name only issued photo ids |
| `Database.Store.CreateUser` | service/database/create-user.go:9-27 | fails with ErrUserExists iff the username is already held, and then changes nothing. Otherwise adds exactly one row with a fresh id and the given username, returns the input with that id, and keeps usernames unique |
| `Database.Store.UpdateUser` | service/database/update-user.go:4-17 | renames exactly the row with the given id, or returns ErrUserNotExists and changes nothing. Hands back its argument in both cases and does no uniqueness check |
| `Database.Store.FollowerUser` | service/database/follower-user.go:3-12 | adds exactly the directed edge if absent; on an existing edge, fails with a key violation and leaves followers unchanged; self-follow is accepted |
| `Database.Store.DeleteFollowerUser` | service/database/follower-user.go:14-22 | removes that one edge and no other; an absent edge is a silent no-op |
| `Database.Store.BanUser` | service/database/ban-user.go:3-12 | adds exactly the directed ban edge if absent, otherwise fails with a key violation and changes nothing; followers is untouched |
| `Database.Store.CreatePhoto` | service/database/photo-user.go:5-21 | stores the photo's date, owner, uuid, likes and url under a fresh id, and returns the argument with only its id changed. Keeps every counter right only if no like row already names the new id; that holds when every like row names an issued id, which the checked like keeps and the code's like does not |
| `Database.Store.GetPhoto` | service/database/photo-user.go:31-54 | succeeds iff a row matches both the owner and the id, and then returns that row with both keys; otherwise fails with no rows |
| `Database.Store.DeletePhoto` | service/database/photo-user.go:23-29 | removes the photo only when owner and id both match, otherwise a no-op; likes and comments stay |
| `Database.Store.LikePhoto` | service/database/like-photo.go:3-31 | on an existing (u, p) row: ErrLikesExists and no change. Otherwise: one (u, p) row added, p's counter set to the recount, other photos untouched; keeps counters right and likes at most one per pair |
| `Database.Store.LikePhotoChecked` | service/database/like-photo.go:3-31 | corrected: for a photo that is not stored, a key violation and no change; otherwise exactly LikePhoto. Keeps counters right, likes at most one per pair, and every like row naming an issued photo id |
| `Database.Store.DeleteLike` | service/database/like-photo.go:33-56 | removes every (u, p) row and sets p's counter to the recount, other photos untouched; keeps counters right and every row naming an issued id, and with right counters a never-liked pair changes nothing |
| `Database.Store.CommentPhoto` | service/database/comment-photo.go:5-36 | for an unknown author: ErrUserNotExists and no insert. Otherwise one comment row with a fresh id, the author, photo and text; returns the new id, the author's stored username and the text; the photo is not checked |
| `Database.Store.DeleteComment` | service/database/comment-photo.go:38-45 | removes the comment only when id, author and photo all match, otherwise a no-op; other comments stay |
| `Database.Store.GetStream` | service/database/get-stream.go:5-43 | every returned photo is a stored photo of a user the reader follows and has not banned; every such photo is returned, once; dates are non-increasing |
| `Database.Store.GetUserProfile` | service/database/profile-user.go:3-65 | ErrUserNotExists iff no such user. Otherwise: the stored username, the photo count, following and follower counts from the followers rows, and a photo list of the owned photos' url and likes, one entry per owned photo (each entry as often as owned photos give it), whose length is the photo count |
| `Api.MatchesAlnum` | service/api/struct.go:10 | the unanchored pattern [a-zA-Z0-9] matches iff some character is an ASCII letter or digit |
| `Api.User.Valid` | service/api/struct.go:13-15 | a username is valid iff it holds an ASCII letter or digit anywhere, whatever its length; the empty name is not valid |
| `Api.User.ToDatabase` | service/api/struct.go:22-27 | copies the id and the username unchanged |
| `Api.User.FromDatabase` | service/api/struct.go:29-32 | as written: sets the id from the record and leaves the receiver's username as it was |
| `Api.FromDatabaseDropsUsername` | service/api/struct.go:29-32 | for every user and every record with a different username, refreshing the user from the record and converting back does not give the record |
| `Api.User.FromDatabaseCopying` | service/api/struct.go:29-32 | corrected: sets the id and the username from the record, so converting back yields the record |
| `Api.FromDatabaseCopyingRoundTrips` | service/api/struct.go:22-32 | refreshing with the corrected conversion and converting back returns any record unchanged |
| `Scenarios.FollowThenUnfollow` | service/database/follower-user.go:3-22 | following an unfollowed user and unfollowing again restores the follower set |
| `Scenarios.UpdateUserTwice` | service/database/update-user.go:4-5 | applying the same rename twice leaves the users table as applying it once |
| `Scenarios.RenameDuplicatesUsername` | service/database/update-user.go:3-18 | CreateUser refuses a taken name, but a rename can leave two users with one username |
| `Scenarios.StreamOfUserFollowingNobody` | service/database/get-stream.go:7 | a user who follows nobody has an empty stream |
| `Scenarios.BanKeepsFollowEdge` | service/database/ban-user.go:3-12 | after a ban the follow edge survives, yet no photo of the banned user is in the stream |
| `Scenarios.GetPhotoAfterDelete` | service/database/photo-user.go:23-44 | a lookup of the keys just deleted fails with no rows |
| `Scenarios.StreamOfOnePhoto` | service/database/get-stream.go:7-41 | when the only stored photo is visible to the reader, the stream is exactly that photo |
| `Scenarios.FollowPostBan` | service/database/get-stream.go:7 | user 1 follows user 2, who posts: the stream is that photo; after user 1 bans user 2 it is empty while the follow edge stays |
| `LikeRows.LikeBeforePhotoBreaksCounters` | service/database/like-photo.go:14-26 | as written: for any tables, liking a photo id that is not stored and then storing a zero-like photo under that id breaks the counter agreement |
| `LikeRows.FreshPhotoKeepsCounters` | service/database/photo-user.go:7-8 | corrected: with every like row naming an issued id, a zero-like photo stored under a fresh id keeps every counter right |
| `LikeRows.WithoutPairKeepsLikesBelow` | service/database/like-photo.go:34 | the keyed delete keeps every remaining like row naming an issued id |
| `Scenarios.LikeBeforeUploadDrifts` | service/database/like-photo.go:14-26 | as written: a like of photo id 1 on an empty store is stored, and the photo then uploaded as id 1 has counter 0 while one like row names it |
| `Scenarios.UploadAfterRefusedLike` | service/database/like-photo.go:3-31 | corrected: the same like is refused with a key violation, and after the upload every counter is right |
| `Scenarios.LikeCounter` | service/database/like-photo.go:3-56 | two likes and one unlike take the counter 0, 1, 2, 1; a repeated like is refused without touching it |

## Left out

- Opening the database, creating the tables and pinging it (`New`, `Ping`) are
  connection I/O. The empty store of the constructor stands for freshly created tables.
  No code of this model enables SQLite's foreign-key enforcement, which is off by
  default, so the FOREIGN KEY clauses are assumed unenforced: likes and comments may name
  missing users or photos.
- Database.Store.LikePhoto: its counter clause promises agreement only if the counters
  agreed before. With foreign keys unenforced, as assumed, an earlier stray like can already
  have broken them (see "## Findings").
- `DeleteBan` is declared in the database interface, but no implementation of it is part
  of this model. So there is no unban.
- The HTTP handlers, request parsing, JSON encoding, status codes, logging, multipart
  upload, image files on disk and UUID generation belong to the HTTP and filesystem
  layers. They are not modelled.
- Concurrency. Each method runs alone, start to finish, so the check-then-insert races in
  `CreateUser` and `LikePhoto` and the missing transactions around the recounts are not
  modelled.
- Driver and SQL errors other than key violations and empty single-row queries are not
  modelled. This includes the ignored Scan error in `CreateUser` and the error returns
  after `Exec` and `LastInsertId`.
- `time.Time` becomes an integer, the zero time becomes 0, and the current time is a
  parameter. `parseDate` is time-library parsing and is not modelled.
- 64-bit id width: ids are unbounded naturals, so exhausting the AUTOINCREMENT range is
  not modelled.
- Database.Store.GetStream: ORDER BY date DESC leaves the order of photos with equal dates
  open. The model keeps such photos in key order (a stable sort), and its contract states
  only that dates are non-increasing.
- Database.Store.GetUserProfile: the photo list's order is left open by the query. The
  model uses key order, and its contract states each entry's multiplicity, not the order.
- The API response structs (`Profile`, `Photo`, `CommentResponse`, `CommentRequest`,
  `Stream`, `ApiResponse`) are plain data with no behaviour. `IsValid`, called by the
  rename handler, is defined in no file of this model.
- The three sentinel errors are distinct constructors of one datatype. No lemma is
  needed to tell them apart.

## Findings

| source | as written | input that shows it | evidently intended | confidence | as-written member | corrected member |
|---|---|---|---|---|---|---|
| service/api/struct.go:31 | `FromDatabase` assigns the receiver's username to itself, so the record's username is dropped | a user with username "alice" refreshed from the record (3, "bob") keeps "alice" | copy the record's username, which makes `FromDatabase` the inverse of `ToDatabase` | high (a self-assignment has no effect); not executed | `Api.User.FromDatabase`, `Api.FromDatabaseDropsUsername` | `Api.User.FromDatabaseCopying` |
| service/database/like-photo.go:14-15 | `LikePhoto` inserts a like row for any photo id, stored or not. The FOREIGN KEY on likes.photoId is declared, but no code of this model enables foreign-key enforcement, and SQLite leaves it off by default; the model assumes it is off. A photo created later under that id starts with `Likes: 0`, so its counter disagrees with its like rows | on an empty store, like photo id 1 as user 9, then upload a photo: it gets id 1, counter 0, and one like row names it | refuse a like of a photo that is not stored, as the declared foreign key says; then every like row names an issued id and a new photo's zero counter is right | medium (depends on SQLite leaving foreign keys off by default); not executed | `LikeRows.LikeBeforePhotoBreaksCounters`, `Scenarios.LikeBeforeUploadDrifts` | `Database.Store.LikePhotoChecked`, `LikeRows.FreshPhotoKeepsCounters` |
