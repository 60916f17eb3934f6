/** The likes table as a sequence of rows and the three queries the store runs on it:
    the per-pair count LikePhoto checks, the per-photo count both like operations write
    back into the photo row, and the keyed delete of DeleteLike. */
module LikeRows {
  import opened Records

  /** SELECT COUNT(*) FROM likes WHERE userId = u AND photoId = p. */
  function PairCount(likes: seq<Like>, u: nat, p: nat): (n: nat)
    ensures n > 0 <==> exists i :: 0 <= i < |likes| && likes[i] == Like(u, p)
  {
    multiset(likes)[Like(u, p)]
  }

  /** SELECT COUNT(*) FROM likes WHERE photoId = p. */
  function LikeCount(likes: seq<Like>, p: nat): (n: nat)
    ensures n <= |likes|
    ensures n == 0 <==> forall i :: 0 <= i < |likes| ==> likes[i].photoId != p
  {
    if likes == [] then 0
    else (if likes[0].photoId == p then 1 else 0) + LikeCount(likes[1..], p)
  }

  /** DELETE FROM likes WHERE userId = u AND photoId = p: every (u, p) row goes, every
      other row stays, as often as it occurred. */
  function WithoutPair(likes: seq<Like>, u: nat, p: nat): (r: seq<Like>)
    ensures Like(u, p) !in r
    ensures forall l :: l != Like(u, p) ==> multiset(r)[l] == multiset(likes)[l]
  {
    if likes == [] then []
    else
      var rest := WithoutPair(likes[1..], u, p);
      assert likes == [likes[0]] + likes[1..];
      if likes[0] == Like(u, p) then rest else [likes[0]] + rest
  }

  /** At most one like row per (user, photo) pair. The table has no key, so this holds
      only as long as every insert goes through LikePhoto's check. */
  ghost predicate OneLikePerPair(likes: seq<Like>)
  {
    forall l :: multiset(likes)[l] <= 1
  }

  /** Adding one row raises the count of its own photo by one and no other count. */
  lemma {:induction false} LikeCountAppend(likes: seq<Like>, l: Like, p: nat)
    ensures LikeCount(likes + [l], p) == LikeCount(likes, p) + (if l.photoId == p then 1 else 0)
  {
    if likes == [] {
      assert likes + [l] == [l];
    } else {
      assert (likes + [l])[1..] == likes[1..] + [l];
      LikeCountAppend(likes[1..], l, p);
    }
  }

  /** The count of a photo is the sum, over the rows for that photo, of their
      multiplicities; in particular it is at least the multiplicity of any one pair. */
  lemma {:induction false} PairCountBelowLikeCount(likes: seq<Like>, u: nat, p: nat)
    ensures PairCount(likes, u, p) <= LikeCount(likes, p)
  {
    if likes != [] {
      assert likes == [likes[0]] + likes[1..];
      PairCountBelowLikeCount(likes[1..], u, p);
    }
  }

  /** Deleting the (u, p) rows lowers the count of photo p by exactly their number and
      leaves the count of every other photo as it was. */
  lemma {:induction false} LikeCountWithoutPair(likes: seq<Like>, u: nat, p: nat, q: nat)
    ensures LikeCount(WithoutPair(likes, u, p), q)
         == LikeCount(likes, q) - (if q == p then PairCount(likes, u, p) else 0)
  {
    if likes != [] {
      assert likes == [likes[0]] + likes[1..];
      LikeCountWithoutPair(likes[1..], u, p, q);
      PairCountBelowLikeCount(likes[1..], u, p);
    }
  }

  /** Deleting a pair that has no row leaves the table as it was. */
  lemma {:induction false} WithoutAbsentPair(likes: seq<Like>, u: nat, p: nat)
    requires PairCount(likes, u, p) == 0
    ensures WithoutPair(likes, u, p) == likes
  {
    if likes != [] {
      assert likes == [likes[0]] + likes[1..];
      WithoutAbsentPair(likes[1..], u, p);
    }
  }

  /** UPDATE photos SET likes = n WHERE id = p: the row keyed p, if there is one, gets the
      new counter; every other row and every other column stays. */
  function SetLikes(photos: map<nat, PhotoRow>, p: nat, n: nat): (r: map<nat, PhotoRow>)
    ensures r.Keys == photos.Keys
    ensures p in photos ==> r[p] == photos[p].(likes := n)
    ensures forall q :: q in photos && q != p ==> r[q] == photos[q]
  {
    if p in photos then photos[p := photos[p].(likes := n)] else photos
  }

  /** Every photo's like counter equals the number of like rows for it. */
  ghost predicate CountersAgree(photos: map<nat, PhotoRow>, likes: seq<Like>)
  {
    forall id :: id in photos ==> photos[id].likes == LikeCount(likes, id)
  }

  /** LikePhoto's insert followed by its recount of photo p keeps every counter right. */
  lemma LikeRecountKeepsCounters(photos: map<nat, PhotoRow>, likes: seq<Like>, u: nat, p: nat)
    requires CountersAgree(photos, likes)
    ensures var after := likes + [Like(u, p)];
      CountersAgree(SetLikes(photos, p, LikeCount(after, p)), after)
  {
    forall q ensures LikeCount(likes + [Like(u, p)], q) == LikeCount(likes, q) + (if q == p then 1 else 0) {
      LikeCountAppend(likes, Like(u, p), q);
    }
  }

  /** DeleteLike's delete followed by its recount of photo p keeps every counter right. */
  lemma UnlikeRecountKeepsCounters(photos: map<nat, PhotoRow>, likes: seq<Like>, u: nat, p: nat)
    requires CountersAgree(photos, likes)
    ensures var after := WithoutPair(likes, u, p);
      CountersAgree(SetLikes(photos, p, LikeCount(after, p)), after)
  {
    forall q ensures LikeCount(WithoutPair(likes, u, p), q)
                  == LikeCount(likes, q) - (if q == p then PairCount(likes, u, p) else 0) {
      LikeCountWithoutPair(likes, u, p, q);
    }
  }

  /** With the counters right, DeleteLike of a pair that has no row changes nothing. */
  lemma UnlikeAbsentIsNoOp(photos: map<nat, PhotoRow>, likes: seq<Like>, u: nat, p: nat)
    requires CountersAgree(photos, likes)
    requires PairCount(likes, u, p) == 0
    ensures WithoutPair(likes, u, p) == likes
    ensures SetLikes(photos, p, LikeCount(likes, p)) == photos
  {
    WithoutAbsentPair(likes, u, p);
    if p in photos {
      assert photos[p].(likes := LikeCount(likes, p)) == photos[p];
    }
  }

  /** Inserting a pair that has no row keeps at most one row per pair. */
  lemma LikeKeepsOneLikePerPair(likes: seq<Like>, u: nat, p: nat)
    requires OneLikePerPair(likes)
    requires PairCount(likes, u, p) == 0
    ensures OneLikePerPair(likes + [Like(u, p)])
  {
  }

  /** Deleting rows keeps at most one row per pair. */
  lemma UnlikeKeepsOneLikePerPair(likes: seq<Like>, u: nat, p: nat)
    requires OneLikePerPair(likes)
    ensures OneLikePerPair(WithoutPair(likes, u, p))
  {
  }

  /** Every like row names a photo id below `bound`, that is, one the photos table has
      already issued. The FOREIGN KEY on photoId states this; SQLite leaves foreign keys
      unenforced unless a connection enables them, and the model assumes they are not
      enforced. */
  predicate LikesBelow(likes: seq<Like>, bound: nat)
  {
    forall i :: 0 <= i < |likes| ==> likes[i].photoId < bound
  }

  /** As written: a like of a photo id that is not stored is inserted and recounted, and
      a photo later created under that id with zero likes disagrees with its rows. */
  lemma LikeBeforePhotoBreaksCounters(photos: map<nat, PhotoRow>, likes: seq<Like>, u: nat, p: nat, row: PhotoRow)
    requires row.likes == 0
    ensures var after := likes + [Like(u, p)];
      !CountersAgree(SetLikes(photos, p, LikeCount(after, p))[p := row], after)
  {
    LikeCountAppend(likes, Like(u, p), p);
  }

  /** Corrected: when every like row names an issued id, a photo created under a fresh id
      with zero likes keeps every counter right. */
  lemma FreshPhotoKeepsCounters(photos: map<nat, PhotoRow>, likes: seq<Like>, bound: nat, id: nat, row: PhotoRow)
    requires CountersAgree(photos, likes) && LikesBelow(likes, bound)
    requires bound <= id && row.likes == 0
    ensures CountersAgree(photos[id := row], likes)
  {
  }

  /** The keyed delete keeps every remaining row naming an issued id. */
  lemma WithoutPairKeepsLikesBelow(likes: seq<Like>, u: nat, p: nat, bound: nat)
    requires LikesBelow(likes, bound)
    ensures LikesBelow(WithoutPair(likes, u, p), bound)
  {
  }
}
