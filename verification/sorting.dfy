/**
  Ordering a directory listing by last-modified time, as the trimming phase
  does with `Collections.sort` and a comparator on `getLastModified`. The
  sort is stable: statuses with equal times keep their listing order
  (`Survivors.SortKeepsTiesInOrder`). `Survivors.SortSurviving` states what
  the trimming phase relies on: removing some statuses before sorting or
  after sorting gives the same sequence.
*/
module StatusSort {
  import opened FileStore

  predicate SortedByLastModified(xs: seq<LocationStatus>) {
    forall i, j :: 0 <= i < j < |xs| ==> xs[i].lastModified <= xs[j].lastModified
  }

  /** No two statuses are about the same location. */
  predicate DistinctLocations(xs: seq<LocationStatus>) {
    forall i, j :: 0 <= i < j < |xs| ==> xs[i].location != xs[j].location
  }

  /** Puts `x` in front of the first status that is not older than it. */
  function Insert(x: LocationStatus, sorted: seq<LocationStatus>): (r: seq<LocationStatus>)
    requires SortedByLastModified(sorted)
    ensures SortedByLastModified(r)
    ensures multiset(r) == multiset(sorted) + multiset{x}
    ensures |r| == |sorted| + 1
    ensures forall k :: 0 <= k < |r| ==> r[k] == x || r[k] in sorted
  {
    if sorted == [] || x.lastModified <= sorted[0].lastModified then [x] + sorted
    else
      var rest := Insert(x, sorted[1..]);
      InsertStep(x, sorted, rest);
      [sorted[0]] + rest
  }

  /** Putting the head back in front of the insertion into the tail. */
  lemma InsertStep(x: LocationStatus, sorted: seq<LocationStatus>, rest: seq<LocationStatus>)
    requires SortedByLastModified(sorted) && sorted != [] && sorted[0].lastModified < x.lastModified
    requires SortedByLastModified(rest) && multiset(rest) == multiset(sorted[1..]) + multiset{x}
    requires forall k :: 0 <= k < |rest| ==> rest[k] == x || rest[k] in sorted[1..]
    ensures var r := [sorted[0]] + rest;
      && SortedByLastModified(r)
      && multiset(r) == multiset(sorted) + multiset{x}
      && forall k :: 0 <= k < |r| ==> r[k] == x || r[k] in sorted
  {
    assert sorted == [sorted[0]] + sorted[1..];
    HeadIsOldest(sorted);
    var r := [sorted[0]] + rest;
    forall i, j | 0 <= i < j < |r| ensures r[i].lastModified <= r[j].lastModified {
      assert r[j] == rest[j - 1];
      if i > 0 {
        assert r[i] == rest[i - 1];
      }
    }
    forall k | 0 <= k < |r| ensures r[k] == x || r[k] in sorted {
      if k > 0 {
        assert r[k] == rest[k - 1];
      }
    }
  }

  /** In a sorted listing no status is older than the first. */
  lemma HeadIsOldest(sorted: seq<LocationStatus>)
    requires SortedByLastModified(sorted) && sorted != []
    ensures forall y :: y in sorted[1..] ==> sorted[0].lastModified <= y.lastModified
  {
    forall y | y in sorted[1..] ensures sorted[0].lastModified <= y.lastModified {
      var m :| 0 <= m < |sorted[1..]| && sorted[1..][m] == y;
      assert y == sorted[m + 1];
    }
  }

  lemma {:induction false} InsertKeepsLocationsDistinct(x: LocationStatus, sorted: seq<LocationStatus>)
    requires SortedByLastModified(sorted) && DistinctLocations(sorted)
    requires forall y :: y in sorted ==> y.location != x.location
    ensures DistinctLocations(Insert(x, sorted))
  {
    if sorted != [] && x.lastModified > sorted[0].lastModified {
      var rest := Insert(x, sorted[1..]);
      InsertKeepsLocationsDistinct(x, sorted[1..]);
      forall k | 0 <= k < |rest| ensures rest[k].location != sorted[0].location {
        if rest[k] != x {
          var m :| 0 <= m < |sorted[1..]| && sorted[1..][m] == rest[k];
          assert rest[k] == sorted[m + 1];
        }
      }
      assert Insert(x, sorted) == [sorted[0]] + rest;
    }
  }

  /** The listing ordered by ascending last-modified time. */
  function SortByLastModified(xs: seq<LocationStatus>): (r: seq<LocationStatus>)
    ensures SortedByLastModified(r)
    ensures multiset(r) == multiset(xs)
    ensures |r| == |xs|
    ensures forall k :: 0 <= k < |r| ==> r[k] in xs
  {
    if xs == [] then []
    else
      assert xs == [xs[0]] + xs[1..];
      Insert(xs[0], SortByLastModified(xs[1..]))
  }

  /** Sorting a listing with one status per location keeps one status per location. */
  lemma {:induction false} SortKeepsLocationsDistinct(xs: seq<LocationStatus>)
    requires DistinctLocations(xs)
    ensures DistinctLocations(SortByLastModified(xs))
  {
    if xs != [] {
      var rest := SortByLastModified(xs[1..]);
      SortKeepsLocationsDistinct(xs[1..]);
      forall y | y in rest ensures y.location != xs[0].location {
        var m :| 0 <= m < |xs[1..]| && xs[1..][m] == y;
        assert y == xs[m + 1];
      }
      InsertKeepsLocationsDistinct(xs[0], rest);
    }
  }
}
