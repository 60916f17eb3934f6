/** Records of the persistence layer: the row types of the six tables, the values the
    store hands back to its callers, and the errors it can report. Identifiers are
    unbounded naturals and timestamps are integers (seconds), supplied by the caller. */
module Records {

  /** The failures the store reports. The first three are the package's sentinel errors;
      the last two stand for the SQL driver's errors that the model keeps: a primary-key
      violation on insert, and a single-row query that found no row. */
  datatype DbError =
    | UserExists            // "user exists"
    | UserNotExists         // "user not exists"
    | LikesExists           // "The user has already liked"
    | ConstraintViolation   // PRIMARY KEY constraint failed
    | NoRows                // the query returned no row

  /** A Go `error` result: nil, or one of the errors above. */
  datatype Outcome = Success | Failure(error: DbError)

  /** A Go pointer result paired with an error: a value, or nil and an error. */
  datatype Result<+T> = Ok(value: T) | Err(error: DbError)

  /** A row of the users table, and the value CreateUser/UpdateUser exchange. */
  datatype User = User(id: nat, username: string)

  /** A stored photo (the photos table row together with its key). */
  datatype Photo = Photo(id: nat, datetime: int, uuid: string, photoUrl: string, likes: nat, userId: nat)

  /** A photos table row without its key. */
  datatype PhotoRow = PhotoRow(uuid: string, date: int, userId: nat, likes: nat, photoUrl: string)

  /** A comments table row without its key. */
  datatype CommentRow = CommentRow(userId: nat, photoId: nat, date: int, comment: string)

  /** The comment value returned to callers: the author is given by username only. */
  datatype Comment = Comment(id: nat, user: User, datetime: int, comment: string)

  /** A likes table row. The table has no key, so equal rows may repeat. */
  datatype Like = Like(userId: nat, photoId: nat)

  /** A followers row (follower, followed) or a bans row (banner, banned). */
  datatype Edge = Edge(src: nat, dst: nat)

  /** The profile aggregate: the user (username only), the user's photos (url and likes
      only) and three counters. */
  datatype Profile = Profile(user: User, photos: seq<Photo>, post: nat, follower: nat, following: nat)

  /** The zero-valued Go time.Time, as a timestamp. */
  const ZeroTime: int := 0

  /** The Photo value of the row stored under `id`. */
  function PhotoOf(id: nat, row: PhotoRow): Photo
  {
    Photo(id, row.date, row.uuid, row.photoUrl, row.likes, row.userId)
  }

  /** The row CreatePhoto stores for `p`: every column but the key comes from `p`. */
  function RowOf(p: Photo): (row: PhotoRow)
    ensures PhotoOf(p.id, row) == p
  {
    PhotoRow(p.uuid, p.datetime, p.userId, p.likes, p.photoUrl)
  }
}
