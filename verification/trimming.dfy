/**
  What phase B of the cleanup task does to the session directory: nothing
  while it lists at most `maxEntries` entries, otherwise it deletes the
  `size - maxEntries` oldest entries of the listing (the liveness marker is
  one of the listed entries) and keeps the `maxEntries` newest.
*/
module Trimming {
  import opened FileStore
  import opened StatusSort
  import opened Survivors
  import opened BundleCache
  import opened Cleanup

  /** `Location.delete()` of `p` does not throw. */
  predicate Deletable(s: Store, p: Path) {
    p !in s.faulty && !(p in s.entries && s.entries[p].Directory? && HasChild(s, p))
  }

  /** Every entry listed in `dir` can be deleted without an IOException. */
  predicate Trimmable(s: Store, dir: Path) {
    forall x :: x in s.entries && ChildOf(dir, x) ==> Deletable(s, x)
  }

  /** The locations the statuses are about. */
  function Locations(xs: seq<LocationStatus>): set<Path> {
    set i | 0 <= i < |xs| :: xs[i].location
  }

  /** The statuses phase B would list for `dir`. */
  function Listed(s: Store, dir: Path, order: seq<Path>): seq<LocationStatus>
    requires ListStatus(s, dir, order).Ok?
  {
    ListStatus(s, dir, order).value
  }

  /** The deletion loop only ever removes the victims' locations. */
  lemma {:induction false} DeleteEachOnlyRemovesVictims(s: Store, victims: seq<LocationStatus>)
    ensures var r := DeleteEach(s, victims);
      && r.faulty == s.faulty
      && (forall p :: p in r.entries ==> p in s.entries && r.entries[p] == s.entries[p])
      && (forall p :: p in s.entries && p !in r.entries ==> p in Locations(victims))
    decreases |victims|
  {
    if victims != [] {
      var d := Delete(s, victims[0].location);
      if d.Ok? {
        DeleteEachOnlyRemovesVictims(d.value, victims[1..]);
        forall p | p in Locations(victims[1..]) ensures p in Locations(victims) {
          var i :| 0 <= i < |victims[1..]| && victims[1..][i].location == p;
          assert victims[i + 1].location == p;
        }
      }
    }
  }

  /** When no delete throws, the deletion loop removes every victim. */
  lemma {:induction false} DeleteEachRemovesAll(s: Store, victims: seq<LocationStatus>)
    requires forall i :: 0 <= i < |victims| ==> Deletable(s, victims[i].location)
    ensures DeleteEach(s, victims) == Store(s.entries - Locations(victims), s.faulty)
    decreases |victims|
  {
    if victims == [] {
      assert s.entries - Locations(victims) == s.entries;
    } else {
      var s' := Store(s.entries - {victims[0].location}, s.faulty);
      assert Delete(s, victims[0].location) == Ok(s');
      forall i | 0 <= i < |victims[1..]| ensures Deletable(s', victims[1..][i].location) {
        assert Deletable(s, victims[i + 1].location);
      }
      DeleteEachRemovesAll(s', victims[1..]);
      assert Locations(victims) == {victims[0].location} + Locations(victims[1..]) by {
        forall p | p in Locations(victims) ensures p in {victims[0].location} + Locations(victims[1..]) {
          var i :| 0 <= i < |victims| && victims[i].location == p;
          if i > 0 {
            assert victims[1..][i - 1].location == p;
          }
        }
        forall p | p in Locations(victims[1..]) ensures p in Locations(victims) {
          var i :| 0 <= i < |victims[1..]| && victims[1..][i].location == p;
          assert victims[i + 1].location == p;
        }
      }
      assert s'.entries - Locations(victims[1..]) == s.entries - Locations(victims);
    }
  }

  /** Statuses about pairwise different locations are about as many locations. */
  lemma {:induction false} LocationsCount(xs: seq<LocationStatus>)
    requires DistinctLocations(xs)
    ensures |Locations(xs)| == |xs|
  {
    if xs != [] {
      LocationsCount(xs[1..]);
      assert Locations(xs) == {xs[0].location} + Locations(xs[1..]) by {
        forall p | p in Locations(xs) ensures p in {xs[0].location} + Locations(xs[1..]) {
          var i :| 0 <= i < |xs| && xs[i].location == p;
          if i > 0 {
            assert xs[1..][i - 1].location == p;
          }
        }
        forall p | p in Locations(xs[1..]) ensures p in Locations(xs) {
          var i :| 0 <= i < |xs[1..]| && xs[1..][i].location == p;
          assert xs[i + 1].location == p;
        }
      }
      assert xs[0].location !in Locations(xs[1..]);
    }
  }

  /** A sequence without repetitions has as many elements as its set. */
  lemma {:induction false} DistinctCount(xs: seq<Path>)
    requires NoDuplicates(xs)
    ensures |set x | x in xs| == |xs|
  {
    if xs != [] {
      DistinctCount(xs[1..]);
      assert (set x | x in xs) == {xs[0]} + (set x | x in xs[1..]);
      assert xs[0] !in xs[1..];
    }
  }

  /** The listing of a store that enumerates each entry once holds every child of `dir`, once. */
  lemma ListedFacts(s: Store, dir: Path, order: seq<Path>)
    requires Enumerates(s, order)
    requires ListStatus(s, dir, order).Ok?
    ensures var statuses := Listed(s, dir, order);
      && DistinctLocations(statuses)
      && Locations(statuses) == ChildrenOf(s, dir)
      && |statuses| == |ChildrenOf(s, dir)|
      && (forall i :: 0 <= i < |statuses| ==>
            statuses[i].location in s.entries && statuses[i] == StatusOf(s, statuses[i].location))
  {
    var listing := ChildrenInOrder(s, dir, order);
    var statuses := Listed(s, dir, order);
    ChildrenInOrderNoDuplicates(s, dir, order);
    assert forall i :: 0 <= i < |statuses| ==> statuses[i].location == listing[i];
    DistinctCount(listing);
    assert (set x | x in listing) == ChildrenOf(s, dir);
    forall p | p in Locations(statuses) ensures p in listing {
      var i :| 0 <= i < |statuses| && statuses[i].location == p;
    }
    forall p | p in listing ensures p in Locations(statuses) {
      var i :| 0 <= i < |listing| && listing[i] == p;
      assert statuses[i].location == p;
    }
  }

  /** A listing at most `maxEntries` long is left alone. */
  lemma TrimPhaseWithinLimit(c: Config, s: Store, order: seq<Path>)
    requires ListStatus(s, SessionDir(c), order).Ok?
    requires |Listed(s, SessionDir(c), order)| <= c.maxEntries
    ensures TrimPhase(c, s, order) == s
  {
  }

  /**
    A negative `maxEntries` never deletes anything: `size - maxEntries`
    exceeds the listing (or wraps negative) and `subList` throws.
  */
  lemma NegativeLimitNeverTrims(c: Config, s: Store, order: seq<Path>)
    requires c.maxEntries < 0
    requires ListStatus(s, SessionDir(c), order).Ok? ==> |Listed(s, SessionDir(c), order)| < Two31
    ensures TrimPhase(c, s, order) == s
  {
    var r := ListStatus(s, SessionDir(c), order);
    if r.Ok? {
      VictimsNegativeLimit(c, r.value);
      assert TrimPhase(c, s, order) == DeleteEach(s, []);
    }
  }

  /** With a negative limit, `subList` rejects `size - maxEntries`: there are no victims. */
  lemma VictimsNegativeLimit(c: Config, statuses: seq<LocationStatus>)
    requires c.maxEntries < 0 && |statuses| < Two31
    ensures Victims(c, statuses) == []
  {
    var n := |statuses|;
    var x := n - c.maxEntries;
    assert !(n <= c.maxEntries);
    assert n < x < 2 * Two31;
    if Two31 <= x {
      Wrap32High(x);
      assert Wrap32(x) < 0;
    } else {
      assert Wrap32(x) == x > n;
    }
  }

  /**
    Whatever phase B does, it only deletes entries of the session
    directory: every other entry, and every entry's contents and time,
    stay as they were.
  */
  lemma TrimPhaseOnlyDeletesSessionEntries(c: Config, s: Store, order: seq<Path>)
    ensures var r := TrimPhase(c, s, order);
      && r.faulty == s.faulty
      && (forall p :: p in r.entries ==> p in s.entries && r.entries[p] == s.entries[p])
      && (forall p :: p in s.entries && p !in r.entries ==> ChildOf(SessionDir(c), p))
  {
    var listed := ListStatus(s, SessionDir(c), order);
    if listed.Ok? {
      var victims := Victims(c, listed.value);
      DeleteEachOnlyRemovesVictims(s, victims);
      ListedAreChildren(s, SessionDir(c), order);
      forall p | p in Locations(victims) ensures ChildOf(SessionDir(c), p) {
        var i :| 0 <= i < |victims| && victims[i].location == p;
        assert victims[i] in listed.value;
      }
    }
  }

  /** Every listed status is about a child of the listed directory. */
  lemma ListedAreChildren(s: Store, dir: Path, order: seq<Path>)
    requires ListStatus(s, dir, order).Ok?
    ensures forall x :: x in Listed(s, dir, order) ==> ChildOf(dir, x.location)
  {
    var statuses := Listed(s, dir, order);
    forall x | x in statuses ensures ChildOf(dir, x.location) {
      var j :| 0 <= j < |statuses| && statuses[j] == x;
      assert ChildOf(dir, List(s, dir, order).value[j]);
    }
  }

  /**
    `statuses` lists the children of `dir`: each one once, each with its
    own status.
  */
  predicate ListingOf(s: Store, dir: Path, statuses: seq<LocationStatus>) {
    && DistinctLocations(statuses)
    && Locations(statuses) == ChildrenOf(s, dir)
    && forall i :: 0 <= i < |statuses| ==>
         statuses[i].location in s.entries && statuses[i] == StatusOf(s, statuses[i].location)
  }

  /** The listing of a store that enumerates each entry once is a `ListingOf` its directory. */
  lemma ListedIsListing(s: Store, dir: Path, order: seq<Path>)
    requires Enumerates(s, order)
    requires ListStatus(s, dir, order).Ok?
    ensures ListingOf(s, dir, Listed(s, dir, order))
    ensures |Listed(s, dir, order)| == |ChildrenOf(s, dir)|
  {
    ListedFacts(s, dir, order);
  }

  /** Over the limit, the victims are the `size - maxEntries` oldest statuses. */
  lemma VictimsOverLimit(c: Config, statuses: seq<LocationStatus>)
    requires 0 <= c.maxEntries < |statuses| < Two31
    ensures Victims(c, statuses) == SortByLastModified(statuses)[..|statuses| - c.maxEntries]
  {
    var k := |statuses| - c.maxEntries;
    assert -Two31 <= k < Two31;
    assert Wrap32(k) == k;
    assert !(|statuses| <= c.maxEntries);
    assert 0 <= k <= |SortByLastModified(statuses)|;
  }

  /** Statuses drawn from a listing of a trimmable directory name deletable entries. */
  lemma ListingDeletable(s: Store, dir: Path, statuses: seq<LocationStatus>, victims: seq<LocationStatus>)
    requires Locations(statuses) == ChildrenOf(s, dir)
    requires Trimmable(s, dir)
    requires forall v :: v in victims ==> v in statuses
    ensures forall i :: 0 <= i < |victims| ==> Deletable(s, victims[i].location)
  {
    forall i | 0 <= i < |victims| ensures Deletable(s, victims[i].location) {
      assert victims[i] in statuses;
      var j :| 0 <= j < |statuses| && statuses[j] == victims[i];
      assert victims[i].location in Locations(statuses);
    }
  }

  /**
    Trimming a listing of a trimmable session directory over the limit
    deletes exactly the first `size - maxEntries` statuses in ascending
    last-modified order.
  */
  lemma TrimListingDeletesOldestPrefix(c: Config, s: Store, statuses: seq<LocationStatus>)
    requires Locations(statuses) == ChildrenOf(s, SessionDir(c))
    requires 0 <= c.maxEntries < |statuses| < Two31
    requires Trimmable(s, SessionDir(c))
    ensures
      var sorted := SortByLastModified(statuses);
      TrimListing(c, s, statuses) == Store(s.entries - Locations(sorted[..|statuses| - c.maxEntries]), s.faulty)
  {
    var victims := Victims(c, statuses);
    VictimsOverLimit(c, statuses);
    ListingDeletable(s, SessionDir(c), statuses, victims);
    DeleteEachRemovesAll(s, victims);
  }

  /**
    Phase B over a session directory listing more than `maxEntries >= 0`
    entries that can all be deleted: the first `size - maxEntries` entries
    in ascending last-modified order are deleted and nothing else.
  */
  lemma TrimPhaseDeletesOldestPrefix(c: Config, s: Store, order: seq<Path>)
    requires Enumerates(s, order)
    requires ListStatus(s, SessionDir(c), order).Ok?
    requires 0 <= c.maxEntries < |Listed(s, SessionDir(c), order)| < Two31
    requires Trimmable(s, SessionDir(c))
    ensures
      var sorted := SortByLastModified(Listed(s, SessionDir(c), order));
      var k := |sorted| - c.maxEntries;
      TrimPhase(c, s, order) == Store(s.entries - Locations(sorted[..k]), s.faulty)
  {
    ListedIsListing(s, SessionDir(c), order);
    TrimListingDeletesOldestPrefix(c, s, Listed(s, SessionDir(c), order));
  }

  /** The first `k` statuses of a reordering of a listing with one status per location. */
  lemma PrefixLocations(statuses: seq<LocationStatus>, sorted: seq<LocationStatus>, k: nat)
    requires multiset(sorted) == multiset(statuses) && DistinctLocations(sorted)
    requires k <= |sorted|
    ensures Locations(sorted[..k]) <= Locations(statuses)
    ensures |Locations(sorted[..k])| == k
  {
    forall p | p in Locations(sorted[..k]) ensures p in Locations(statuses) {
      var i :| 0 <= i < k && sorted[..k][i].location == p;
      assert sorted[i] in multiset(statuses);
      var j :| 0 <= j < |statuses| && statuses[j] == sorted[i];
    }
    LocationsCount(sorted[..k]);
  }

  /**
    In a listing sorted by time whose times are the store's, every location
    of the first `k` statuses is at most as new as every other listed location.
  */
  lemma PrefixIsOldest(s: Store, statuses: seq<LocationStatus>, sorted: seq<LocationStatus>, k: nat)
    requires forall i :: 0 <= i < |statuses| ==>
      statuses[i].location in s.entries && statuses[i].lastModified == s.entries[statuses[i].location].lastModified
    requires multiset(sorted) == multiset(statuses) && SortedByLastModified(sorted)
    requires k <= |sorted|
    ensures forall y, x :: y in Locations(sorted[..k]) && x in Locations(statuses) - Locations(sorted[..k]) ==>
      y in s.entries && x in s.entries && s.entries[y].lastModified <= s.entries[x].lastModified
  {
    forall y, x | y in Locations(sorted[..k]) && x in Locations(statuses) - Locations(sorted[..k])
      ensures y in s.entries && x in s.entries && s.entries[y].lastModified <= s.entries[x].lastModified
    {
      var i :| 0 <= i < k && sorted[..k][i].location == y;
      assert sorted[i] in multiset(statuses);
      var a :| 0 <= a < |statuses| && statuses[a] == sorted[i];
      var b :| 0 <= b < |statuses| && statuses[b].location == x;
      assert statuses[b] in multiset(sorted);
      var j :| 0 <= j < |sorted| && sorted[j] == statuses[b];
      assert sorted[i].lastModified <= sorted[j].lastModified;
    }
  }

  /** Removing a set of children removes exactly those children. */
  lemma ChildrenAfterRemoval(s: Store, dir: Path, deleted: set<Path>)
    requires deleted <= ChildrenOf(s, dir)
    ensures ChildrenOf(Store(s.entries - deleted, s.faulty), dir) == ChildrenOf(s, dir) - deleted
    ensures ChildrenOf(s, dir) - (s.entries - deleted).Keys == deleted
  {
  }

  lemma RemovedCount(all: set<Path>, d: set<Path>)
    requires d <= all
    ensures |all - d| == |all| - |d|
  {
    assert all == (all - d) + d;
  }

  /**
    Removing the first `k` entries of a sorted listing of `dir` leaves
    `size - k` children and removes `k`.
  */
  lemma RemovePrefixCount(s: Store, dir: Path, statuses: seq<LocationStatus>, k: nat, r: Store)
    requires DistinctLocations(statuses) && Locations(statuses) == ChildrenOf(s, dir)
    requires k <= |statuses|
    requires r == Store(s.entries - Locations(SortByLastModified(statuses)[..k]), s.faulty)
    ensures |ChildrenOf(r, dir)| == |statuses| - k
    ensures |ChildrenOf(s, dir) - r.entries.Keys| == k
  {
    var sorted := SortByLastModified(statuses);
    var deleted := Locations(sorted[..k]);
    SortKeepsLocationsDistinct(statuses);
    PrefixLocations(statuses, sorted, k);
    ChildrenAfterRemoval(s, dir, deleted);
    LocationsCount(statuses);
    RemovedCount(ChildrenOf(s, dir), deleted);
  }

  /**
    Removing the first `k` entries of a sorted listing of `dir` keeps no
    child of `dir` older than a removed entry.
  */
  lemma RemovePrefixKeepsNewest(s: Store, dir: Path, statuses: seq<LocationStatus>, k: nat, r: Store)
    requires ListingOf(s, dir, statuses)
    requires k <= |statuses|
    requires r.entries == s.entries - Locations(SortByLastModified(statuses)[..k])
    ensures forall x, y :: x in r.entries && ChildOf(dir, x) && y in s.entries && y !in r.entries ==>
      s.entries[y].lastModified <= r.entries[x].lastModified
  {
    var sorted := SortByLastModified(statuses);
    var deleted := Locations(sorted[..k]);
    PrefixIsOldest(s, statuses, sorted, k);
    forall x, y | x in r.entries && ChildOf(dir, x) && y in s.entries && y !in r.entries
      ensures s.entries[y].lastModified <= r.entries[x].lastModified
    {
      assert y in deleted;
      assert x in ChildrenOf(s, dir);
      assert x in Locations(statuses) - deleted;
    }
  }

  /**
    Phase B over a session directory listing more than `maxEntries >= 0`
    entries that can all be deleted: exactly `maxEntries` of its entries
    survive, and `size - maxEntries` are deleted.
  */
  lemma TrimPhaseLeavesLimit(c: Config, s: Store, order: seq<Path>)
    requires Enumerates(s, order)
    requires ListStatus(s, SessionDir(c), order).Ok?
    requires 0 <= c.maxEntries < |Listed(s, SessionDir(c), order)| < Two31
    requires Trimmable(s, SessionDir(c))
    ensures var r := TrimPhase(c, s, order);
      && |ChildrenOf(r, SessionDir(c))| == c.maxEntries
      && |ChildrenOf(s, SessionDir(c)) - r.entries.Keys| == |Listed(s, SessionDir(c), order)| - c.maxEntries
  {
    var statuses := Listed(s, SessionDir(c), order);
    var k := |statuses| - c.maxEntries;
    var r := TrimPhase(c, s, order);
    TrimPhaseDeletesOldestPrefix(c, s, order);
    assert r == Store(s.entries - Locations(SortByLastModified(statuses)[..k]), s.faulty);
    ListedIsListing(s, SessionDir(c), order);
    RemovePrefixCount(s, SessionDir(c), statuses, k, r);
  }

  /**
    Phase B over a session directory listing more than `maxEntries >= 0`
    entries: no surviving entry of the session directory is older than any
    deleted entry, also when a delete threw and ended the batch early.
  */
  lemma TrimPhaseKeepsNewest(c: Config, s: Store, order: seq<Path>)
    requires Enumerates(s, order)
    requires ListStatus(s, SessionDir(c), order).Ok?
    requires 0 <= c.maxEntries < |Listed(s, SessionDir(c), order)| < Two31
    ensures var r := TrimPhase(c, s, order);
      forall x, y :: x in r.entries && ChildOf(SessionDir(c), x) && y in s.entries && y !in r.entries ==>
        s.entries[y].lastModified <= r.entries[x].lastModified
  {
    var statuses := Listed(s, SessionDir(c), order);
    var j := TrimStopsAtFirstFailure(c, s, order);
    ListedIsListing(s, SessionDir(c), order);
    RemovePrefixKeepsNewest(s, SessionDir(c), statuses, j, TrimPhase(c, s, order));
  }

  /**
    Phase B over a session directory listing more than `maxEntries >= 0`
    entries never deletes below the limit: at least `maxEntries` children
    survive, however early a throwing delete ends the batch.
  */
  lemma TrimPhaseKeepsLimit(c: Config, s: Store, order: seq<Path>)
    requires Enumerates(s, order)
    requires ListStatus(s, SessionDir(c), order).Ok?
    requires 0 <= c.maxEntries < |Listed(s, SessionDir(c), order)| < Two31
    ensures c.maxEntries <= |ChildrenOf(TrimPhase(c, s, order), SessionDir(c))|
  {
    var statuses := Listed(s, SessionDir(c), order);
    var j := TrimStopsAtFirstFailure(c, s, order);
    ListedIsListing(s, SessionDir(c), order);
    RemovePrefixCount(s, SessionDir(c), statuses, j, TrimPhase(c, s, order));
  }
  /** How many victims the deletion loop removes before a delete throws (all of them when none does). */
  function DeletedCount(s: Store, victims: seq<LocationStatus>): (j: nat)
    ensures j <= |victims|
    decreases |victims|
  {
    if victims == [] then 0
    else
      match Delete(s, victims[0].location)
      case Err(_) => 0
      case Ok(s') => 1 + DeletedCount(s', victims[1..])
  }

  /**
    The deletion loop removes a prefix of the victims: the first
    `DeletedCount` of them are gone, and the delete of the next one throws
    on the store the loop leaves behind.
  */
  lemma {:induction false} DeleteEachStopsAtFirstFailure(s: Store, victims: seq<LocationStatus>)
    ensures var j := DeletedCount(s, victims);
      var r := DeleteEach(s, victims);
      && r == Store(s.entries - Locations(victims[..j]), s.faulty)
      && (j < |victims| ==> Delete(r, victims[j].location).Err?)
    decreases |victims|
  {
    if victims == [] {
      assert s.entries - Locations(victims[..0]) == s.entries;
    } else {
      var d := Delete(s, victims[0].location);
      if d.Err? {
        assert s.entries - Locations(victims[..0]) == s.entries;
      } else {
        var s' := d.value;
        var rest := victims[1..];
        var j' := DeletedCount(s', rest);
        DeleteEachStopsAtFirstFailure(s', rest);
        assert Locations(victims[..j' + 1]) == {victims[0].location} + Locations(rest[..j']) by {
          forall p | p in Locations(victims[..j' + 1])
            ensures p in {victims[0].location} + Locations(rest[..j'])
          {
            var i :| 0 <= i < j' + 1 && victims[..j' + 1][i].location == p;
            if i > 0 {
              assert rest[..j'][i - 1].location == p;
            }
          }
          forall p | p in Locations(rest[..j']) ensures p in Locations(victims[..j' + 1]) {
            var i :| 0 <= i < j' && rest[..j'][i].location == p;
            assert victims[..j' + 1][i + 1].location == p;
          }
          assert victims[..j' + 1][0] == victims[0];
        }
        assert s'.entries - Locations(rest[..j']) == s.entries - Locations(victims[..j' + 1]);
        if j' < |rest| {
          assert victims[j' + 1] == rest[j'];
        }
      }
    }
  }

  /** The statuses of present paths, in their order. */
  function StatusesOf(s: Store, ps: seq<Path>): (r: seq<LocationStatus>)
    requires forall p :: p in ps ==> p in s.entries
    ensures |r| == |ps|
    ensures forall i :: 0 <= i < |ps| ==> r[i] == StatusOf(s, ps[i])
  {
    if ps == [] then [] else [StatusOf(s, ps[0])] + StatusesOf(s, ps[1..])
  }

  lemma ListedIsStatusesOf(s: Store, dir: Path, order: seq<Path>)
    requires ListStatus(s, dir, order).Ok?
    ensures Listed(s, dir, order) == StatusesOf(s, ChildrenInOrder(s, dir, order))
  {
  }

  /**
    Removing entries from a store removes their statuses from the listing
    of a directory and keeps the other statuses, in their order.
  */
  lemma {:induction false} StatusesAfterRemoval(a: Store, dir: Path, order: seq<Path>, gone: set<Path>)
    ensures var b := Store(a.entries - gone, a.faulty);
      StatusesOf(b, ChildrenInOrder(b, dir, order)) ==
        Surviving(StatusesOf(a, ChildrenInOrder(a, dir, order)), gone)
  {
    if order != [] {
      var b := Store(a.entries - gone, a.faulty);
      var p := order[0];
      var ca := ChildrenInOrder(a, dir, order[1..]);
      var cb := ChildrenInOrder(b, dir, order[1..]);
      StatusesAfterRemoval(a, dir, order[1..], gone);
      if p in a.entries && ChildOf(dir, p) {
        var sa := StatusesOf(a, [p] + ca);
        assert ([p] + ca)[1..] == ca;
        assert sa == [StatusOf(a, p)] + StatusesOf(a, ca);
        assert sa[1..] == StatusesOf(a, ca);
        if p !in gone {
          assert ([p] + cb)[1..] == cb;
          assert StatusOf(b, p) == StatusOf(a, p);
        }
      }
    }
  }

  /**
    Removing entries other than `dir` itself from a store whose `dir`
    lists leaves a listing of `dir` that holds the surviving statuses, in
    the order of the first listing.
  */
  lemma ListedAfterRemoval(a: Store, dir: Path, order: seq<Path>, gone: set<Path>)
    requires ListStatus(a, dir, order).Ok? && dir !in gone
    ensures var b := Store(a.entries - gone, a.faulty);
      && ListStatus(b, dir, order).Ok?
      && Listed(b, dir, order) == Surviving(Listed(a, dir, order), gone)
  {
    var b := Store(a.entries - gone, a.faulty);
    ListedIsStatusesOf(a, dir, order);
    ListedIsStatusesOf(b, dir, order);
    StatusesAfterRemoval(a, dir, order, gone);
  }
  /** Removing the locations of a prefix of statuses about distinct locations leaves the rest. */
  lemma SurvivingAfterPrefix(xs: seq<LocationStatus>, j: nat)
    requires DistinctLocations(xs) && j <= |xs|
    ensures Surviving(xs, Locations(xs[..j])) == xs[j..]
  {
    var gone := Locations(xs[..j]);
    forall i | 0 <= i < j ensures xs[i].location in gone {
      assert xs[..j][i] == xs[i];
    }
    forall i | j <= i < |xs| ensures xs[i].location !in gone {
      forall m | 0 <= m < j ensures xs[..j][m].location != xs[i].location {
        assert xs[..j][m] == xs[m];
      }
    }
    SurvivingDrop(xs, j, gone);
  }

  /** A directory is not among the locations of statuses taken from its own listing. */
  lemma DirNotListed(s: Store, dir: Path, order: seq<Path>, xs: seq<LocationStatus>)
    requires ListStatus(s, dir, order).Ok?
    requires forall x :: x in xs ==> x in Listed(s, dir, order)
    ensures dir !in Locations(xs)
  {
    ListedAreChildren(s, dir, order);
    forall i | 0 <= i < |xs| ensures xs[i].location != dir {
      assert xs[i] in xs;
    }
  }
  /**
    Over the limit, phase B deletes the oldest `j` entries for some `j` up
    to `size - maxEntries`; when it stops short, deleting the next oldest
    entry throws on the store it leaves.
  */
  lemma TrimStopsAtFirstFailure(c: Config, a: Store, order: seq<Path>) returns (j: nat)
    requires ListStatus(a, SessionDir(c), order).Ok?
    requires 0 <= c.maxEntries < |Listed(a, SessionDir(c), order)| < Two31
    ensures var listed := Listed(a, SessionDir(c), order);
      var sorted := SortByLastModified(listed);
      var b := TrimPhase(c, a, order);
      && j <= |listed| - c.maxEntries
      && b == Store(a.entries - Locations(sorted[..j]), a.faulty)
      && (j < |listed| - c.maxEntries ==> Delete(b, sorted[j].location).Err?)
  {
    var listed := Listed(a, SessionDir(c), order);
    var sorted := SortByLastModified(listed);
    var victims := sorted[..|listed| - c.maxEntries];
    VictimsOverLimit(c, listed);
    j := DeletedCount(a, victims);
    DeleteEachStopsAtFirstFailure(a, victims);
    assert victims[..j] == sorted[..j];
  }

}
