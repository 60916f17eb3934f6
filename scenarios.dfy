/** Clients of the store: each composes store operations and shows, from their contracts
    alone, a property that spans more than one call. */
module Scenarios {
  import opened Records
  import opened LikeRows
  import opened Queries
  import opened Database

  /** Following a user one did not follow and unfollowing them again restores the follow
      edges. */
  method FollowThenUnfollow(s: Store, a: nat, b: nat)
    requires s.Valid() && Edge(a, b) !in s.followers
    modifies s
    ensures s.Valid()
    ensures s.followers == old(s.followers)
  {
    var err := s.FollowerUser(a, b);
    s.DeleteFollowerUser(a, b);
  }

  /** Applying the same rename twice leaves the users table as applying it once. */
  method UpdateUserTwice(s: Store, u: User)
    requires s.Valid()
    modifies s
    ensures s.Valid()
    ensures s.users == if u.id in old(s.users) then old(s.users)[u.id := u.username] else old(s.users)
  {
    var r1, e1 := s.UpdateUser(u);
    var r2, e2 := s.UpdateUser(u);
  }

  /** CreateUser refuses a taken username, but UpdateUser does not check: renaming one
      user to another's name leaves two users with the same username. */
  method RenameDuplicatesUsername() returns (s: Store)
    ensures s.Valid() && !s.UniqueUsernames()
  {
    s := new Store();
    var alice, e1 := s.CreateUser(User(0, "alice"));
    var bob, e2 := s.CreateUser(User(0, "bob"));
    assert e1 == Success && e2 == Success && s.UniqueUsernames();
    assert s.users[alice.id] == "alice";
    var again, e3 := s.CreateUser(User(0, "alice"));
    assert e3 == Failure(UserExists);
    var renamed, e4 := s.UpdateUser(User(bob.id, "alice"));
    assert e4 == Success;
    assert s.users[alice.id] == s.users[bob.id] && alice.id != bob.id;
  }

  /** A user who follows nobody has an empty stream. */
  lemma StreamOfUserFollowingNobody(s: Store, u: nat)
    requires s.Valid()
    requires forall e :: e in s.followers ==> e.src != u
    ensures s.GetStream(u) == []
  {
  }

  /** Banning a followed user keeps the follow edge, yet their photos leave the stream. */
  method BanKeepsFollowEdge(s: Store, a: nat, b: nat)
    requires s.Valid() && Edge(a, b) in s.followers
    modifies s
    ensures s.Valid()
    ensures Edge(a, b) in s.followers && Edge(a, b) in s.bans
    ensures forall i :: 0 <= i < |s.GetStream(a)| ==> s.GetStream(a)[i].userId != b
  {
    var err := s.BanUser(a, b);
  }

  /** A lookup of the keys just deleted fails. */
  method GetPhotoAfterDelete(s: Store, owner: nat, id: nat)
    requires s.Valid()
    modifies s
    ensures s.Valid()
    ensures s.GetPhoto(owner, id) == Err(NoRows)
  {
    s.DeletePhoto(owner, id);
  }

  /** When the only photo stored is visible to u, it is u's whole stream. */
  lemma StreamOfOnePhoto(s: Store, u: nat, p: Photo)
    requires s.Valid()
    requires s.photos == map[p.id := RowOf(p)]
    requires Edge(u, p.userId) in s.followers && Edge(u, p.userId) !in s.bans
    ensures s.GetStream(u) == [p]
  {
    var stream := s.GetStream(u);
    assert PhotoOf(p.id, s.photos[p.id]) == p;
    assert p in stream;
    assert stream[0] == p && stream[|stream| - 1] == p;
  }

  /** User 1 follows user 2, who posts a photo: the photo is user 1's whole stream. After
      user 1 bans user 2 the stream is empty, while the follow edge is still there. */
  method FollowPostBan() returns (s: Store)
    ensures s.Valid() && Edge(1, 2) in s.followers && Edge(1, 2) in s.bans
    ensures s.GetStream(1) == []
  {
    s := new Store();
    var e1 := s.FollowerUser(1, 2);
    var p1 := s.CreatePhoto(Photo(0, 100, "9f1c", "9f1c.png", 0, 2));
    StreamOfOnePhoto(s, 1, p1);
    assert s.GetStream(1) == [p1];
    var e2 := s.BanUser(1, 2);
  }

  /** Two users like a photo and one takes the like back: the counter goes 0, 1, 2, 1, and
      a repeated like is refused without touching it. */
  method LikeCounter() returns (s: Store, photo: nat)
    ensures s.Valid() && photo in s.photos
    ensures s.photos[photo].likes == LikeCount(s.likes, photo) == 1
  {
    s := new Store();
    var p1 := s.CreatePhoto(Photo(0, 100, "9f1c", "9f1c.png", 0, 1));
    assert s.photos[p1.id].likes == 0;
    var l1 := s.LikePhoto(1, p1.id);
    assert l1 == Success && s.likes == [Like(1, p1.id)] && s.photos[p1.id].likes == 1;
    var l2 := s.LikePhoto(2, p1.id);
    assert l2 == Success && s.likes == [Like(1, p1.id), Like(2, p1.id)];
    assert s.photos[p1.id].likes == 2;
    assert s.likes[0] == Like(1, p1.id);
    var l3 := s.LikePhoto(1, p1.id);
    assert l3 == Failure(LikesExists) && s.photos[p1.id].likes == 2;
    s.DeleteLike(1, p1.id);
    photo := p1.id;
  }

  /** As written: a like of photo id 1 before any photo exists is stored, and the photo
      then uploaded under id 1 starts with zero likes, so its counter disagrees with the
      one like row that names it. */
  method LikeBeforeUploadDrifts() returns (s: Store, photo: Photo)
    ensures s.Valid() && photo.id in s.photos
    ensures s.photos[photo.id].likes == 0 && LikeCount(s.likes, photo.id) == 1
    ensures !CountersAgree(s.photos, s.likes)
  {
    s := new Store();
    var e := s.LikePhoto(9, 1);
    photo := s.CreatePhoto(Photo(0, 100, "9f1c", "9f1c.png", 0, 2));
    assert s.likes == [Like(9, 1)];
  }

  /** Corrected: the same like is refused because photo 1 is not stored, and the upload
      then keeps every counter right. */
  method UploadAfterRefusedLike() returns (s: Store, photo: Photo)
    ensures s.Valid() && photo.id in s.photos
    ensures s.photos[photo.id].likes == LikeCount(s.likes, photo.id) == 0
    ensures CountersAgree(s.photos, s.likes) && s.LikesIssued()
  {
    s := new Store();
    var e := s.LikePhotoChecked(9, 1);
    assert e == Failure(ConstraintViolation);
    photo := s.CreatePhoto(Photo(0, 100, "9f1c", "9f1c.png", 0, 2));
  }
}
