/** The building blocks of the two read views: a scan of the photos table in key order
    keeping the rows whose owner is in a given set, and a stable sort of photos by date,
    most recent first (ORDER BY date DESC). */
module Queries {
  import opened Records

  /** The rows of `photos` keyed below `bound` whose owner is in `owners`, as photos, in
      increasing key order (the order of a scan over the table's keys). */
  function ScanPhotos(photos: map<nat, PhotoRow>, bound: nat, owners: set<nat>): (r: seq<Photo>)
    ensures forall i :: 0 <= i < |r| ==>
              && r[i].id < bound && r[i].id in photos && photos[r[i].id].userId in owners
              && r[i] == PhotoOf(r[i].id, photos[r[i].id])
    ensures forall id :: id < bound && id in photos && photos[id].userId in owners ==> PhotoOf(id, photos[id]) in r
    ensures forall i, j :: 0 <= i < j < |r| ==> r[i].id < r[j].id
  {
    if bound == 0 then []
    else
      var k := bound - 1;
      ScanPhotos(photos, k, owners) + (if k in photos && photos[k].userId in owners then [PhotoOf(k, photos[k])] else [])
  }

  /** The keys of the rows of `photos` whose owner is in `owners`. */
  function Selected(photos: map<nat, PhotoRow>, owners: set<nat>): set<nat>
  {
    set id | id in photos && photos[id].userId in owners
  }

  /** The keys of `photos` below `bound` whose owner is in `owners`, as a set. */
  function SelectedBelow(photos: map<nat, PhotoRow>, bound: nat, owners: set<nat>): set<nat>
  {
    set id | id in Selected(photos, owners) && id < bound
  }

  /** The scan yields every selected row exactly once, so its length is the number of
      selected rows (the COUNT(*) of the same WHERE clause). */
  lemma {:induction false} ScanPhotosLength(photos: map<nat, PhotoRow>, bound: nat, owners: set<nat>)
    ensures |ScanPhotos(photos, bound, owners)| == |SelectedBelow(photos, bound, owners)|
  {
    if bound > 0 {
      var k := bound - 1;
      ScanPhotosLength(photos, k, owners);
      var before, after := SelectedBelow(photos, k, owners), SelectedBelow(photos, bound, owners);
      if k in photos && photos[k].userId in owners {
        assert |ScanPhotos(photos, bound, owners)| == |ScanPhotos(photos, k, owners)| + 1;
        assert after == before + {k} by {
          forall id | id in after ensures id in before + {k} {
            if id != k { assert id in before; }
          }
        }
        assert k !in before;
      } else {
        assert ScanPhotos(photos, bound, owners) == ScanPhotos(photos, k, owners);
        assert after == before by {
          forall id | id in after ensures id in before {
            assert id != k;
          }
        }
      }
    }
  }

  /** When every key lies below `bound`, the scan holds one photo per selected row of the
      whole table. */
  lemma ScanPhotosCountsAll(photos: map<nat, PhotoRow>, bound: nat, owners: set<nat>)
    requires forall id :: id in photos ==> id < bound
    ensures |ScanPhotos(photos, bound, owners)| == |Selected(photos, owners)|
  {
    ScanPhotosLength(photos, bound, owners);
    assert SelectedBelow(photos, bound, owners) == Selected(photos, owners);
  }

  /** Most recent first: no photo is older than one after it. */
  predicate DateDescending(s: seq<Photo>)
  {
    forall i, j :: 0 <= i < j < |s| ==> s[i].datetime >= s[j].datetime
  }

  /** No two photos carry the same key. */
  predicate DistinctIds(s: seq<Photo>)
  {
    forall i, j :: 0 <= i < j < |s| ==> s[i].id != s[j].id
  }

  /** Places `x` in front of the first photo of `s` that is not more recent than it. */
  function InsertByDate(x: Photo, s: seq<Photo>): (r: seq<Photo>)
    ensures multiset(r) == multiset(s) + multiset{x}
  {
    if s == [] || s[0].datetime <= x.datetime then [x] + s
    else
      assert s == [s[0]] + s[1..];
      [s[0]] + InsertByDate(x, s[1..])
  }

  /** Inserting into a list ordered most recent first keeps it so ordered. */
  lemma {:induction false} InsertByDateDescending(x: Photo, s: seq<Photo>)
    requires DateDescending(s)
    ensures DateDescending(InsertByDate(x, s))
  {
    if s != [] && s[0].datetime > x.datetime {
      var rest := InsertByDate(x, s[1..]);
      InsertByDateDescending(x, s[1..]);
      forall k | 0 <= k < |rest|
        ensures s[0].datetime >= rest[k].datetime
      {
        assert rest[k] in multiset(s[1..]) + multiset{x};
      }
    }
  }

  /** Inserting a photo whose key is new into a list of distinct keys keeps them distinct. */
  lemma {:induction false} InsertByDateDistinct(x: Photo, s: seq<Photo>)
    requires DistinctIds(s)
    requires forall y :: y in s ==> y.id != x.id
    ensures DistinctIds(InsertByDate(x, s))
  {
    if s != [] && s[0].datetime > x.datetime {
      var rest := InsertByDate(x, s[1..]);
      InsertByDateDistinct(x, s[1..]);
      forall k | 0 <= k < |rest|
        ensures s[0].id != rest[k].id
      {
        assert rest[k] in multiset(s[1..]) + multiset{x};
      }
    }
  }

  /** Insertion sort by date, most recent first; photos with equal dates keep their
      order in `s`. */
  function SortByDateDesc(s: seq<Photo>): (r: seq<Photo>)
    ensures multiset(r) == multiset(s)
    ensures DateDescending(r)
  {
    if s == [] then []
    else
      assert s == [s[0]] + s[1..];
      var rest := SortByDateDesc(s[1..]);
      InsertByDateDescending(s[0], rest);
      InsertByDate(s[0], rest)
  }

  /** Sorting keeps keys distinct (so a photo appears once in the sorted list iff once
      in the input). */
  lemma {:induction false} SortByDateDescDistinct(s: seq<Photo>)
    requires DistinctIds(s)
    ensures DistinctIds(SortByDateDesc(s))
  {
    if s != [] {
      assert s == [s[0]] + s[1..];
      var rest := SortByDateDesc(s[1..]);
      SortByDateDescDistinct(s[1..]);
      forall y | y in rest
        ensures y.id != s[0].id
      {
        assert y in multiset(s[1..]);
      }
      InsertByDateDistinct(s[0], rest);
    }
  }

  /** The rows of `photos` keyed below `bound` whose owner is in `owners`, most recent
      first: each such row exactly once and nothing else. */
  function SelectByDateDesc(photos: map<nat, PhotoRow>, bound: nat, owners: set<nat>): (r: seq<Photo>)
    ensures forall i :: 0 <= i < |r| ==>
              && r[i].id < bound && r[i].id in photos && photos[r[i].id].userId in owners
              && r[i] == PhotoOf(r[i].id, photos[r[i].id])
    ensures forall id :: id < bound && id in photos && photos[id].userId in owners ==> PhotoOf(id, photos[id]) in r
    ensures DistinctIds(r)
    ensures DateDescending(r)
  {
    var found := ScanPhotos(photos, bound, owners);
    SortByDateDescDistinct(found);
    var sorted := SortByDateDesc(found);
    ReorderedScan(photos, bound, owners, sorted);
    sorted
  }

  /** A permutation of the scan holds the same rows as the scan. */
  lemma ReorderedScan(photos: map<nat, PhotoRow>, bound: nat, owners: set<nat>, r: seq<Photo>)
    requires multiset(r) == multiset(ScanPhotos(photos, bound, owners))
    ensures forall i :: 0 <= i < |r| ==>
              && r[i].id < bound && r[i].id in photos && photos[r[i].id].userId in owners
              && r[i] == PhotoOf(r[i].id, photos[r[i].id])
    ensures forall id :: id < bound && id in photos && photos[id].userId in owners ==> PhotoOf(id, photos[id]) in r
  {
    var found := ScanPhotos(photos, bound, owners);
    forall i | 0 <= i < |r|
      ensures r[i].id < bound && r[i].id in photos && photos[r[i].id].userId in owners
      ensures r[i] == PhotoOf(r[i].id, photos[r[i].id])
    {
      assert r[i] in multiset(found);
      var j :| 0 <= j < |found| && found[j] == r[i];
    }
    forall id | id < bound && id in photos && photos[id].userId in owners
      ensures PhotoOf(id, photos[id]) in r
    {
      assert PhotoOf(id, photos[id]) in multiset(found);
    }
  }
}
