/**
  Removing statuses from a listing, as deleting entries removes them from
  the next listing of their directory, and how that interacts with sorting.
*/
module Survivors {
  import opened FileStore
  import opened StatusSort

  /** The statuses whose location is not in `gone`, in their order. */
  function Surviving(xs: seq<LocationStatus>, gone: set<Path>): (r: seq<LocationStatus>)
    ensures forall y :: y in r <==> y in xs && y.location !in gone
    ensures |r| <= |xs|
  {
    if xs == [] then []
    else
      var rest := Surviving(xs[1..], gone);
      if xs[0].location in gone then rest else [xs[0]] + rest
  }

  /** What survives of a sorted listing is sorted. */
  lemma {:induction false} SurvivingSorted(xs: seq<LocationStatus>, gone: set<Path>)
    requires SortedByLastModified(xs)
    ensures SortedByLastModified(Surviving(xs, gone))
  {
    if xs != [] {
      var rest := Surviving(xs[1..], gone);
      TailNotOlder(xs);
      SurvivingSorted(xs[1..], gone);
      if xs[0].location !in gone {
        var r := [xs[0]] + rest;
        forall i, j | 0 <= i < j < |r| ensures r[i].lastModified <= r[j].lastModified {
          assert r[j] == rest[j - 1] && r[j] in xs[1..];
          if i > 0 {
            assert r[i] == rest[i - 1];
          }
        }
      }
    }
  }

  /** The tail of a sorted listing is sorted and holds nothing older than the head. */
  lemma TailNotOlder(xs: seq<LocationStatus>)
    requires xs != []
    ensures SortedByLastModified(xs) ==>
      && SortedByLastModified(xs[1..])
      && forall y :: y in xs[1..] ==> xs[0].lastModified <= y.lastModified
  {
    if SortedByLastModified(xs) {
      HeadIsOldest(xs);
    }
  }

  /** Removing statuses commutes with inserting one into a sorted listing. */
  lemma {:induction false} InsertSurviving(x: LocationStatus, xs: seq<LocationStatus>, gone: set<Path>)
    requires SortedByLastModified(xs)
    ensures SortedByLastModified(Surviving(xs, gone))
    ensures Surviving(Insert(x, xs), gone) ==
      if x.location in gone then Surviving(xs, gone) else Insert(x, Surviving(xs, gone))
  {
    SurvivingSorted(xs, gone);
    var kept := Surviving(xs, gone);
    if xs == [] || x.lastModified <= xs[0].lastModified {
      assert Insert(x, xs) == [x] + xs;
      assert ([x] + xs)[1..] == xs;
      if x.location !in gone && kept != [] {
        HeadIsOldest(xs);
        assert kept[0] in xs;
        assert x.lastModified <= kept[0].lastModified;
      }
    } else {
      var tail := xs[1..];
      InsertSurviving(x, tail, gone);
      TailNotOlder(xs);
      assert Insert(x, xs) == [xs[0]] + Insert(x, tail);
      assert ([xs[0]] + Insert(x, tail))[1..] == Insert(x, tail);
      if xs[0].location !in gone {
        assert kept == [xs[0]] + Surviving(tail, gone);
        if x.location !in gone {
          assert kept[1..] == Surviving(tail, gone);
        }
      }
    }
  }

  /**
    Sorting is stable, so removing statuses before sorting gives the same
    sequence as removing them from the sorted listing.
  */
  lemma {:induction false} SortSurviving(xs: seq<LocationStatus>, gone: set<Path>)
    ensures SortByLastModified(Surviving(xs, gone)) == Surviving(SortByLastModified(xs), gone)
  {
    if xs != [] {
      var tail := xs[1..];
      SortSurviving(tail, gone);
      InsertSurviving(xs[0], SortByLastModified(tail), gone);
      if xs[0].location !in gone {
        var kept := [xs[0]] + Surviving(tail, gone);
        assert Surviving(xs, gone) == kept;
        assert kept[1..] == Surviving(tail, gone);
      }
    }
  }

  /**
    Removing the locations of the first `j` statuses, and of none of the
    others, leaves the statuses from position `j` on.
  */
  lemma {:induction false} SurvivingDrop(xs: seq<LocationStatus>, j: nat, gone: set<Path>)
    requires j <= |xs|
    requires forall i :: 0 <= i < j ==> xs[i].location in gone
    requires forall i :: j <= i < |xs| ==> xs[i].location !in gone
    ensures Surviving(xs, gone) == xs[j..]
  {
    if j == 0 {
      SurvivingNone(xs, gone);
    } else {
      var tail := xs[1..];
      forall i | 0 <= i < j - 1 ensures tail[i].location in gone {
        assert tail[i] == xs[i + 1];
      }
      forall i | j - 1 <= i < |tail| ensures tail[i].location !in gone {
        assert tail[i] == xs[i + 1];
      }
      SurvivingDrop(tail, j - 1, gone);
      assert tail[j - 1..] == xs[j..];
    }
  }

  /** Removing locations none of the statuses is about keeps them all. */
  lemma {:induction false} SurvivingNone(xs: seq<LocationStatus>, gone: set<Path>)
    requires forall i :: 0 <= i < |xs| ==> xs[i].location !in gone
    ensures Surviving(xs, gone) == xs
  {
    if xs != [] {
      var tail := xs[1..];
      forall i | 0 <= i < |tail| ensures tail[i].location !in gone {
        assert tail[i] == xs[i + 1];
      }
      SurvivingNone(tail, gone);
      assert xs == [xs[0]] + tail;
    }
  }
  /** Statuses whose locations are all removed vanish from the front of a sequence. */
  lemma {:induction false} SurvivingGonePrefix(ys: seq<LocationStatus>, zs: seq<LocationStatus>, gone: set<Path>)
    requires forall k :: 0 <= k < |ys| ==> ys[k].location in gone
    ensures Surviving(ys + zs, gone) == Surviving(zs, gone)
  {
    if ys == [] {
      assert ys + zs == zs;
    } else {
      var tail := ys[1..];
      forall k | 0 <= k < |tail| ensures tail[k].location in gone {
        assert tail[k] == ys[k + 1];
      }
      SurvivingGonePrefix(tail, zs, gone);
      var whole := ys + zs;
      assert whole != [] && whole[0] == ys[0] && whole[1..] == tail + zs;
      assert Surviving(whole, gone) == Surviving(whole[1..], gone);
    }
  }

  /** A status whose location is kept stays at the front. */
  lemma SurvivingKeptHead(x: LocationStatus, zs: seq<LocationStatus>, gone: set<Path>)
    requires x.location !in gone
    ensures Surviving([x] + zs, gone) == [x] + Surviving(zs, gone)
  {
    assert ([x] + zs)[0] == x;
    assert ([x] + zs)[1..] == zs;
  }

  /** Removing every location but those of positions `i` and `j` leaves exactly those two statuses. */
  lemma SurvivingPair(xs: seq<LocationStatus>, i: nat, j: nat, gone: set<Path>)
    requires i < j < |xs|
    requires forall k :: 0 <= k < |xs| ==> (xs[k].location !in gone <==> k == i || k == j)
    ensures Surviving(xs, gone) == [xs[i], xs[j]]
  {
    var before, between, after := xs[..i], xs[i + 1..j], xs[j + 1..];
    forall k | 0 <= k < |before| ensures before[k].location in gone {
      assert before[k] == xs[k];
    }
    forall k | 0 <= k < |between| ensures between[k].location in gone {
      assert between[k] == xs[i + 1 + k];
    }
    forall k | 0 <= k < |after| ensures after[k].location in gone {
      assert after[k] == xs[j + 1 + k];
    }
    var t3 := [xs[j]] + after;
    var t2 := between + t3;
    var t1 := [xs[i]] + t2;
    assert xs == before + t1;
    SurvivingGonePrefix(after, [], gone);
    assert after + [] == after;
    SurvivingKeptHead(xs[j], after, gone);
    SurvivingGonePrefix(between, t3, gone);
    SurvivingKeptHead(xs[i], t2, gone);
    SurvivingGonePrefix(before, t1, gone);
  }

  /** Two statuses with equal times are already sorted. */
  lemma SortTiedPair(x: LocationStatus, y: LocationStatus)
    requires x.lastModified == y.lastModified
    ensures SortByLastModified([x, y]) == [x, y]
  {
    var single := [y];
    assert single[1..] == [];
    assert SortByLastModified(single) == Insert(y, []) == single;
    assert [x, y][1..] == single;
    assert SortByLastModified([x, y]) == Insert(x, single) == [x] + single;
  }

  /**
    The sort is stable: of two statuses with equal times, the one listed
    first comes first in the sorted listing. Removing every other status
    from the sorted listing leaves the two in listing order.
  */
  lemma SortKeepsTiesInOrder(xs: seq<LocationStatus>, i: nat, j: nat, gone: set<Path>)
    requires i < j < |xs| && xs[i].lastModified == xs[j].lastModified
    requires forall k :: 0 <= k < |xs| ==> (xs[k].location !in gone <==> k == i || k == j)
    ensures Surviving(SortByLastModified(xs), gone) == [xs[i], xs[j]]
  {
    SortSurviving(xs, gone);
    SurvivingPair(xs, i, j, gone);
    SortTiedPair(xs[i], xs[j]);
  }
}
