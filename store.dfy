/** The application database as an in-memory relational store: one field per table, and
    one method per statement sequence the store runs. Every method runs to completion
    without interleaving; driver failures other than key violations and empty single-row
    queries do not occur. */
module Database {
  import opened Records
  import opened LikeRows
  import opened Queries

  /** A photo as the profile query returns it: only its url and its like counter are
      read, the other fields keep Go's zero values. */
  function ProfileEntry(p: Photo): Photo
  {
    Photo(0, ZeroTime, "", p.photoUrl, p.likes, 0)
  }

  /** The owners whose photos reach u's stream: the followedId of every followers row
      with followerId u, minus the bannedUser of every bans row with userId u. */
  function FollowedNotBanned(followers: set<Edge>, bans: set<Edge>, u: nat): (owners: set<nat>)
    ensures forall o :: o in owners <==> Edge(u, o) in followers && Edge(u, o) !in bans
  {
    var owners := set e | e in followers && e.src == u && Edge(u, e.dst) !in bans :: e.dst;
    assert forall o :: Edge(u, o) in followers && Edge(u, o) !in bans ==> o in owners by {
      forall o | Edge(u, o) in followers && Edge(u, o) !in bans ensures o in owners {
        var e := Edge(u, o);
        assert e in followers && e.src == u && e.dst == o;
      }
    }
    owners
  }

  /** SELECT photoUrl, likes FROM photos WHERE userId = u, scanned in key order: one
      entry per photo u owns, and nothing else. */
  function ProfileEntries(photos: map<nat, PhotoRow>, bound: nat, u: nat): (r: seq<Photo>)
    requires forall id :: id in photos ==> id < bound
    ensures |r| == |Selected(photos, {u})|
    ensures forall i :: 0 <= i < |r| ==>
              exists id :: id in photos && photos[id].userId == u && r[i] == ProfileEntry(PhotoOf(id, photos[id]))
    ensures forall id :: id in photos && photos[id].userId == u ==> ProfileEntry(PhotoOf(id, photos[id])) in r
    ensures forall e :: multiset(r)[e] == |KeysWithEntry(photos, u, e)|
  {
    ScanPhotosCountsAll(photos, bound, {u});
    EntriesComeFromOwnedPhotos(photos, bound, u);
    OwnedPhotosHaveEntries(photos, bound, u);
    ProfileEntriesCount(photos, bound, u);
    Entries(ScanPhotos(photos, bound, {u}))
  }

  /** The keys of the photos u owns whose profile entry is `e`. */
  function KeysWithEntry(photos: map<nat, PhotoRow>, u: nat, e: Photo): set<nat>
  {
    set id | id in photos && photos[id].userId == u && ProfileEntry(PhotoOf(id, photos[id])) == e
  }

  /** The number of photos of `ps` whose profile entry is `e`. */
  function EntryCount(ps: seq<Photo>, e: Photo): nat
  {
    if ps == [] then 0
    else (if ProfileEntry(ps[0]) == e then 1 else 0) + EntryCount(ps[1..], e)
  }

  /** EntryCount is the multiplicity of `e` among the entries of `ps`. */
  lemma {:induction false} EntryCountIsMultiplicity(ps: seq<Photo>, e: Photo)
    ensures multiset(Entries(ps))[e] == EntryCount(ps, e)
  {
    if ps != [] {
      EntryCountIsMultiplicity(ps[1..], e);
      assert Entries(ps) == [ProfileEntry(ps[0])] + Entries(ps[1..]);
    }
  }

  /** The keys of the photos of `ps` whose profile entry is `e`. */
  function IdsGiving(ps: seq<Photo>, e: Photo): set<nat>
  {
    set i | 0 <= i < |ps| && ProfileEntry(ps[i]) == e :: ps[i].id
  }

  /** Putting a photo in front adds its key to the keys giving `e` exactly when it gives
      `e`. */
  lemma IdsGivingCons(ps: seq<Photo>, e: Photo)
    requires ps != []
    ensures IdsGiving(ps, e) == (if ProfileEntry(ps[0]) == e then {ps[0].id} else {}) + IdsGiving(ps[1..], e)
  {
  }

  /** In a list with strictly increasing keys, each photo giving `e` has its own key, so
      the count of `e` is the number of keys giving it. */
  lemma {:induction false} EntryCountByIds(ps: seq<Photo>, e: Photo)
    requires forall i, j :: 0 <= i < j < |ps| ==> ps[i].id < ps[j].id
    ensures EntryCount(ps, e) == |IdsGiving(ps, e)|
  {
    if ps != [] {
      var rest := ps[1..];
      EntryCountByIds(rest, e);
      IdsGivingCons(ps, e);
      forall id | id in IdsGiving(rest, e) ensures id != ps[0].id {
        var i :| 0 <= i < |rest| && ProfileEntry(rest[i]) == e && rest[i].id == id;
        assert rest[i] == ps[i + 1];
      }
    }
  }

  /** The keys of the profile scan giving `e` are exactly the keys of u's photos giving
      `e`. */
  lemma ScanIdsGiving(photos: map<nat, PhotoRow>, bound: nat, u: nat, e: Photo)
    requires forall id :: id in photos ==> id < bound
    ensures IdsGiving(ScanPhotos(photos, bound, {u}), e) == KeysWithEntry(photos, u, e)
  {
  }

  /** Over the whole table, each entry occurs once per owned photo that gives it. */
  lemma ProfileEntriesCount(photos: map<nat, PhotoRow>, bound: nat, u: nat)
    requires forall id :: id in photos ==> id < bound
    ensures forall e :: multiset(Entries(ScanPhotos(photos, bound, {u})))[e] == |KeysWithEntry(photos, u, e)|
  {
    var scan := ScanPhotos(photos, bound, {u});
    forall e ensures multiset(Entries(scan))[e] == |KeysWithEntry(photos, u, e)| {
      EntryCountIsMultiplicity(scan, e);
      EntryCountByIds(scan, e);
      ScanIdsGiving(photos, bound, u, e);
    }
  }

  /** Every entry of the profile scan is the entry of a photo u owns. */
  lemma EntriesComeFromOwnedPhotos(photos: map<nat, PhotoRow>, bound: nat, u: nat)
    ensures var r := Entries(ScanPhotos(photos, bound, {u}));
      forall i :: 0 <= i < |r| ==>
        exists id :: id in photos && photos[id].userId == u && r[i] == ProfileEntry(PhotoOf(id, photos[id]))
  {
  }

  /** Every photo u owns, keyed below `bound`, has its entry in the profile scan. */
  lemma OwnedPhotosHaveEntries(photos: map<nat, PhotoRow>, bound: nat, u: nat)
    ensures var r := Entries(ScanPhotos(photos, bound, {u}));
      forall id :: id in photos && photos[id].userId == u && id < bound ==> ProfileEntry(PhotoOf(id, photos[id])) in r
  {
  }

  /** The profile entry of each photo of `ps`, in order. */
  function Entries(ps: seq<Photo>): (r: seq<Photo>)
    ensures |r| == |ps| && forall i :: 0 <= i < |ps| ==> r[i] == ProfileEntry(ps[i])
  {
    if ps == [] then [] else [ProfileEntry(ps[0])] + Entries(ps[1..])
  }

  class Store {
    /** users(id PRIMARY KEY AUTOINCREMENT, username): no constraint on username. */
    var users: map<nat, string>
    /** followers(followerId, followedId) with PRIMARY KEY(followerId, followedId). */
    var followers: set<Edge>
    /** bans(userId, bannedUser) with PRIMARY KEY(userId, bannedUser). */
    var bans: set<Edge>
    /** photos(id PRIMARY KEY AUTOINCREMENT, uuid, date, userId, likes, photoUrl). */
    var photos: map<nat, PhotoRow>
    /** likes(userId, photoId): no key at all, so a row may occur more than once. */
    var likes: seq<Like>
    /** comments(id PRIMARY KEY AUTOINCREMENT, userId, photoId, date, comment). */
    var comments: map<nat, CommentRow>
    /** One more than the largest id each AUTOINCREMENT table has ever issued. */
    var nextUserId: nat
    var nextPhotoId: nat
    var nextCommentId: nat

    /** Every key lies below its table's counter, and ids start at 1. */
    ghost predicate Valid()
      reads this
    {
      && 0 < nextUserId && 0 < nextPhotoId && 0 < nextCommentId
      && (forall id :: id in users ==> 0 < id < nextUserId)
      && (forall id :: id in photos ==> 0 < id < nextPhotoId)
      && (forall id :: id in comments ==> 0 < id < nextCommentId)
    }

    /** Every like row names a photo id the photos table has already issued. */
    ghost predicate LikesIssued()
      reads this
    {
      LikesBelow(likes, nextPhotoId)
    }

    /** No two users share a username. The table does not enforce it. */
    ghost predicate UniqueUsernames()
      reads this
    {
      forall i, j :: i in users && j in users && users[i] == users[j] ==> i == j
    }

    /** The six tables, freshly created and empty. */
    constructor ()
      ensures Valid()
      ensures users == map[] && followers == {} && bans == {}
      ensures photos == map[] && likes == [] && comments == map[]
      ensures nextUserId == 1 && nextPhotoId == 1 && nextCommentId == 1
      ensures UniqueUsernames() && CountersAgree(photos, likes) && OneLikePerPair(likes)
      ensures LikesIssued()
    {
      users, followers, bans := map[], {}, {};
      photos, likes, comments := map[], [], map[];
      nextUserId, nextPhotoId, nextCommentId := 1, 1, 1;
    }

    /** Registers `u.username` unless some user already holds it; the id of `u` is ignored
        and a fresh one is assigned. */
    method CreateUser(u: User) returns (r: User, err: Outcome)
      requires Valid()
      modifies this`users, this`nextUserId
      ensures Valid()
      ensures err == Failure(UserExists) <==> u.username in old(users).Values
      ensures err == Failure(UserExists) ==> r == u && users == old(users) && nextUserId == old(nextUserId)
      ensures err != Failure(UserExists) ==> err == Success
      ensures err == Success ==> r.id !in old(users) && r.id == old(nextUserId) && nextUserId == r.id + 1
      ensures err == Success ==> r == u.(id := r.id) && users == old(users)[r.id := u.username]
      ensures old(UniqueUsernames()) ==> UniqueUsernames()
    {
      if u.username in users.Values {
        return u, Failure(UserExists);
      }
      var id := nextUserId;
      users := users[id := u.username];
      nextUserId := nextUserId + 1;
      r, err := u.(id := id), Success;
    }

    /** Renames the user keyed `u.id` to `u.username`, without looking at other users'
        names; `u` is handed back in every outcome. */
    method UpdateUser(u: User) returns (r: User, err: Outcome)
      requires Valid()
      modifies this`users
      ensures Valid()
      ensures r == u
      ensures u.id in old(users) ==> err == Success && users == old(users)[u.id := u.username]
      ensures u.id !in old(users) ==> err == Failure(UserNotExists) && users == old(users)
    {
      // UPDATE ... WHERE id = u.id; the number of affected rows decides the outcome
      var affected := if u.id in users then 1 else 0;
      if affected == 0 {
        return u, Failure(UserNotExists);
      }
      users := users[u.id := u.username];
      r, err := u, Success;
    }

    /** Inserts the follow edge (follower, followed); an existing edge violates the key. */
    method FollowerUser(follower: nat, followed: nat) returns (err: Outcome)
      requires Valid()
      modifies this`followers
      ensures Valid()
      ensures Edge(follower, followed) in old(followers) ==>
                err == Failure(ConstraintViolation) && followers == old(followers)
      ensures Edge(follower, followed) !in old(followers) ==>
                err == Success && followers == old(followers) + {Edge(follower, followed)}
    {
      if Edge(follower, followed) in followers {
        return Failure(ConstraintViolation);
      }
      followers := followers + {Edge(follower, followed)};
      err := Success;
    }

    /** Deletes the follow edge (follower, followed) if present; never fails. */
    method DeleteFollowerUser(follower: nat, followed: nat)
      requires Valid()
      modifies this`followers
      ensures Valid()
      ensures followers == old(followers) - {Edge(follower, followed)}
    {
      followers := followers - {Edge(follower, followed)};
    }

    /** Inserts the ban edge (banner, banned); an existing edge violates the key. The
        follow edges are not touched. */
    method BanUser(banner: nat, banned: nat) returns (err: Outcome)
      requires Valid()
      modifies this`bans
      ensures Valid()
      ensures followers == old(followers)
      ensures Edge(banner, banned) in old(bans) ==>
                err == Failure(ConstraintViolation) && bans == old(bans)
      ensures Edge(banner, banned) !in old(bans) ==>
                err == Success && bans == old(bans) + {Edge(banner, banned)}
    {
      if Edge(banner, banned) in bans {
        return Failure(ConstraintViolation);
      }
      bans := bans + {Edge(banner, banned)};
      err := Success;
    }

    /** Stores `p` under a fresh id and returns `p` carrying that id. */
    method CreatePhoto(p: Photo) returns (r: Photo)
      requires Valid()
      modifies this`photos, this`nextPhotoId
      ensures Valid()
      ensures r.id !in old(photos) && r.id == old(nextPhotoId) && nextPhotoId == r.id + 1
      ensures r == p.(id := r.id)
      ensures photos == old(photos)[r.id := RowOf(p)]
      ensures old(CountersAgree(photos, likes)) && p.likes == LikeCount(likes, r.id) ==> CountersAgree(photos, likes)
      ensures old(LikesIssued()) ==> LikesIssued()
      ensures old(CountersAgree(photos, likes) && LikesIssued()) && p.likes == 0 ==> CountersAgree(photos, likes)
    {
      var id := nextPhotoId;
      if CountersAgree(photos, likes) && LikesIssued() && p.likes == 0 {
        FreshPhotoKeepsCounters(photos, likes, nextPhotoId, id, RowOf(p));
      }
      photos := photos[id := RowOf(p)];
      nextPhotoId := nextPhotoId + 1;
      r := p.(id := id);
    }

    /** The photo keyed `id` provided `owner` owns it. */
    function GetPhoto(owner: nat, id: nat): (r: Result<Photo>)
      reads this
      ensures r.Ok? <==> id in photos && photos[id].userId == owner
      ensures r.Ok? ==> r.value.id == id && r.value.userId == owner && RowOf(r.value) == photos[id]
      ensures r.Err? ==> r.error == NoRows
    {
      if id in photos && photos[id].userId == owner then Ok(PhotoOf(id, photos[id])) else Err(NoRows)
    }

    /** Deletes the photo keyed `id` if `owner` owns it; otherwise does nothing. Its like
        and comment rows stay. */
    method DeletePhoto(owner: nat, id: nat)
      requires Valid()
      modifies this`photos
      ensures Valid()
      ensures photos == if id in old(photos) && old(photos)[id].userId == owner
                        then old(photos) - {id} else old(photos)
      ensures likes == old(likes) && comments == old(comments)
      ensures old(CountersAgree(photos, likes)) ==> CountersAgree(photos, likes)
    {
      if id in photos && photos[id].userId == owner {
        photos := photos - {id};
      }
    }

    /** Adds the like (u, p) unless one exists, then recounts the likes of p and writes the
        count into photo p's row. */
    method LikePhoto(u: nat, p: nat) returns (err: Outcome)
      requires Valid()
      modifies this`likes, this`photos
      ensures Valid()
      ensures PairCount(old(likes), u, p) > 0 ==>
                err == Failure(LikesExists) && likes == old(likes) && photos == old(photos)
      ensures PairCount(old(likes), u, p) == 0 ==>
                err == Success && likes == old(likes) + [Like(u, p)]
                && photos == SetLikes(old(photos), p, LikeCount(likes, p))
      ensures err == Success ==> LikeCount(likes, p) == LikeCount(old(likes), p) + 1
      ensures err == Success && p in photos ==> photos[p].likes == LikeCount(likes, p)
      ensures forall q :: q in old(photos) && q != p ==> q in photos && photos[q] == old(photos)[q]
      ensures old(CountersAgree(photos, likes)) ==> CountersAgree(photos, likes)
      ensures old(OneLikePerPair(likes)) ==> OneLikePerPair(likes)
    {
      var existing := PairCount(likes, u, p);
      if existing > 0 {
        return Failure(LikesExists);
      }
      ghost var before := likes;
      likes := likes + [Like(u, p)];
      var count := LikeCount(likes, p);
      photos := SetLikes(photos, p, count);
      LikeCountAppend(before, Like(u, p), p);
      if CountersAgree(old(photos), before) {
        LikeRecountKeepsCounters(old(photos), before, u, p);
      }
      if OneLikePerPair(before) {
        LikeKeepsOneLikePerPair(before, u, p);
      }
      err := Success;
    }

    /** LikePhoto refusing a like of a photo that is not stored, as the FOREIGN KEY on
        likes.photoId intends; otherwise exactly LikePhoto. */
    method LikePhotoChecked(u: nat, p: nat) returns (err: Outcome)
      requires Valid()
      modifies this`likes, this`photos
      ensures Valid()
      ensures p !in old(photos) ==>
                err == Failure(ConstraintViolation) && likes == old(likes) && photos == old(photos)
      ensures p in old(photos) && PairCount(old(likes), u, p) > 0 ==>
                err == Failure(LikesExists) && likes == old(likes) && photos == old(photos)
      ensures p in old(photos) && PairCount(old(likes), u, p) == 0 ==>
                err == Success && likes == old(likes) + [Like(u, p)]
                && photos == SetLikes(old(photos), p, LikeCount(likes, p))
      ensures err == Success ==> p in photos && photos[p].likes == LikeCount(likes, p) == LikeCount(old(likes), p) + 1
      ensures forall q :: q in old(photos) && q != p ==> q in photos && photos[q] == old(photos)[q]
      ensures old(CountersAgree(photos, likes)) ==> CountersAgree(photos, likes)
      ensures old(OneLikePerPair(likes)) ==> OneLikePerPair(likes)
      ensures old(LikesIssued()) ==> LikesIssued()
    {
      if p !in photos {
        return Failure(ConstraintViolation);
      }
      ghost var before := likes;
      err := LikePhoto(u, p);
      assert LikesBelow(before, nextPhotoId) ==> LikesBelow(likes, nextPhotoId) by {
        if LikesBelow(before, nextPhotoId) && err == Success {
          assert likes == before + [Like(u, p)];
        }
      }
    }

    /** Deletes every (u, p) like row (none is fine), then recounts the likes of p and
        writes the count into photo p's row. */
    method DeleteLike(u: nat, p: nat)
      requires Valid()
      modifies this`likes, this`photos
      ensures Valid()
      ensures likes == WithoutPair(old(likes), u, p)
      ensures photos == SetLikes(old(photos), p, LikeCount(likes, p))
      ensures PairCount(likes, u, p) == 0
      ensures LikeCount(likes, p) == LikeCount(old(likes), p) - PairCount(old(likes), u, p)
      ensures forall q :: q in old(photos) && q != p ==> q in photos && photos[q] == old(photos)[q]
      ensures old(CountersAgree(photos, likes)) ==> CountersAgree(photos, likes)
      ensures old(CountersAgree(photos, likes)) && PairCount(old(likes), u, p) == 0 ==>
                likes == old(likes) && photos == old(photos)
      ensures old(OneLikePerPair(likes)) ==> OneLikePerPair(likes)
      ensures old(LikesIssued()) ==> LikesIssued()
    {
      ghost var before := likes;
      if LikesIssued() {
        WithoutPairKeepsLikesBelow(likes, u, p, nextPhotoId);
      }
      likes := WithoutPair(likes, u, p);
      var count := LikeCount(likes, p);
      photos := SetLikes(photos, p, count);
      LikeCountWithoutPair(before, u, p, p);
      if CountersAgree(old(photos), before) {
        UnlikeRecountKeepsCounters(old(photos), before, u, p);
        if PairCount(before, u, p) == 0 {
          UnlikeAbsentIsNoOp(old(photos), before, u, p);
        }
      }
      if OneLikePerPair(before) {
        UnlikeKeepsOneLikePerPair(before, u, p);
      }
    }

    /** Comments `c.comment` on photo p as user u at time `now`, provided u exists; the
        photo is not looked up. Returns the new comment with its id and the author's name. */
    method CommentPhoto(u: nat, p: nat, c: Comment, now: int) returns (r: Result<Comment>)
      requires Valid()
      modifies this`comments, this`nextCommentId
      ensures Valid()
      ensures u !in users ==>
                r == Err(UserNotExists) && comments == old(comments) && nextCommentId == old(nextCommentId)
      ensures u in users ==>
                && old(nextCommentId) !in old(comments)
                && r == Ok(Comment(old(nextCommentId), User(0, users[u]), now, c.comment))
                && comments == old(comments)[old(nextCommentId) := CommentRow(u, p, now, c.comment)]
                && nextCommentId == old(nextCommentId) + 1
    {
      if u !in users {
        return Err(UserNotExists);
      }
      var username := users[u];
      var id := nextCommentId;
      comments := comments[id := CommentRow(u, p, now, c.comment)];
      nextCommentId := nextCommentId + 1;
      r := Ok(Comment(id, User(0, username), now, c.comment));
    }

    /** Deletes comment `id` if it was written by u on photo p; otherwise does nothing. */
    method DeleteComment(id: nat, u: nat, p: nat)
      requires Valid()
      modifies this`comments
      ensures Valid()
      ensures comments == if id in old(comments) && old(comments)[id].userId == u && old(comments)[id].photoId == p
                          then old(comments) - {id} else old(comments)
    {
      if id in comments && comments[id].userId == u && comments[id].photoId == p {
        comments := comments - {id};
      }
    }

    /** The photos of the users u follows and has not banned, most recent first. */
    function GetStream(u: nat): (r: seq<Photo>)
      reads this
      requires Valid()
      ensures forall i :: 0 <= i < |r| ==>
                Edge(u, r[i].userId) in followers && Edge(u, r[i].userId) !in bans
      ensures forall i :: 0 <= i < |r| ==> r[i].id in photos && r[i] == PhotoOf(r[i].id, photos[r[i].id])
      ensures forall id :: (id in photos && Edge(u, photos[id].userId) in followers
                            && Edge(u, photos[id].userId) !in bans) ==> PhotoOf(id, photos[id]) in r
      ensures DistinctIds(r)
      ensures DateDescending(r)
    {
      SelectByDateDesc(photos, nextPhotoId, FollowedNotBanned(followers, bans, u))
    }

    /** The profile of user u: username, photo count, follower and following counts, and
        url and likes of each of u's photos. */
    function GetUserProfile(u: nat): (r: Result<Profile>)
      reads this
      requires Valid()
      ensures r.Err? <==> u !in users
      ensures r.Err? ==> r.error == UserNotExists
      ensures r.Ok? ==> r.value.user == User(0, users[u])
      ensures r.Ok? ==> r.value.post == |Selected(photos, {u})|
      ensures r.Ok? ==> r.value.following == |set e | e in followers && e.src == u|
      ensures r.Ok? ==> r.value.follower == |set e | e in followers && e.dst == u|
      ensures r.Ok? ==> |r.value.photos| == r.value.post
      ensures r.Ok? ==> forall i :: 0 <= i < |r.value.photos| ==>
                exists id :: id in photos && photos[id].userId == u
                             && r.value.photos[i] == ProfileEntry(PhotoOf(id, photos[id]))
      ensures r.Ok? ==> forall id :: id in photos && photos[id].userId == u ==>
                ProfileEntry(PhotoOf(id, photos[id])) in r.value.photos
      ensures r.Ok? ==> forall e :: multiset(r.value.photos)[e] == |KeysWithEntry(photos, u, e)|
    {
      if u !in users then Err(UserNotExists)
      else
        var entries := ProfileEntries(photos, nextPhotoId, u);
        var post := |Selected(photos, {u})|;
        Ok(Profile(User(0, users[u]), entries, post,
                   |set e | e in followers && e.dst == u|,
                   |set e | e in followers && e.src == u|))
    }
  }
}
