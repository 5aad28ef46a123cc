/**
  What phase A of the cleanup task does, stated declaratively: after the
  heartbeat, the store loses exactly the directories of the listed
  siblings that are `Reaped`, whatever order the store lists them in.
*/
module Reaping {
  import opened FileStore
  import opened BundleCache
  import opened Cleanup

  /** `p` lies in (or is) one of the children of `root` collected in `dead`. */
  predicate InDead(root: Path, dead: set<Path>, p: Path) {
    |p| > |root| && p[..|root| + 1] in dead
  }

  /** The store with the subtrees of the children `dead` of `root` removed. */
  function Without(s: Store, root: Path, dead: set<Path>): (r: Store)
    ensures r.faulty == s.faulty
    ensures forall p :: p in r.entries <==> p in s.entries && !InDead(root, dead, p)
    ensures forall p :: p in r.entries ==> r.entries[p] == s.entries[p]
  {
    Store(map p | p in s.entries && !InDead(root, dead, p) :: s.entries[p], s.faulty)
  }

  /** The siblings among `siblings` that phase A deletes. */
  function DeadSiblings(c: Config, s: Store, siblings: seq<Path>, expire: int64): set<Path> {
    set l | l in siblings && Reaped(c, s, l, expire)
  }

  lemma WithoutNothing(s: Store, root: Path)
    ensures Without(s, root, {}) == s
  {
    assert Without(s, root, {}).entries == s.entries;
  }

  lemma WithoutTwice(s: Store, root: Path, a: set<Path>, b: set<Path>)
    ensures Without(Without(s, root, a), root, b) == Without(s, root, a + b)
  {
    assert Without(Without(s, root, a), root, b).entries == Without(s, root, a + b).entries;
  }

  /** Deleting the subtree of one child of `root` removes exactly that child's part of the store. */
  lemma DeleteTreeIsWithout(s: Store, root: Path, child: Path)
    requires ChildOf(root, child) && child !in s.faulty
    ensures DeleteTree(s, child).value == Without(s, root, {child})
  {
    forall p ensures Under(child, p) <==> InDead(root, {child}, p) {
      if Under(child, p) {
        assert p[..|root| + 1] == child;
      }
    }
    assert DeleteTree(s, child).value.entries == Without(s, root, {child}).entries;
  }

  /** Removing other siblings' subtrees does not change the verdict on a sibling. */
  lemma ReapedUnaffected(c: Config, s: Store, dead: set<Path>, l: Path, expire: int64)
    requires ChildOf(c.cacheDir, l) && l !in dead
    ensures Reaped(c, Without(s, c.cacheDir, dead), l, expire) == Reaped(c, s, l, expire)
  {
    assert ActivePath(l)[..|c.cacheDir| + 1] == l;
  }

  /**
    The reaping loop, whatever the order of the listing, deletes exactly
    the subtrees of the listed siblings that are `Reaped` in the store it
    starts from: one sibling's failure or deletion does not change the
    verdict on another.
  */
  lemma {:induction false} ReapAllRemovesDeadSiblings(c: Config, s: Store, siblings: seq<Path>, expire: int64)
    requires forall l :: l in siblings ==> ChildOf(c.cacheDir, l)
    ensures ReapAll(c, s, siblings, expire) == Without(s, c.cacheDir, DeadSiblings(c, s, siblings, expire))
    decreases |siblings|
  {
    var root := c.cacheDir;
    if siblings == [] {
      assert DeadSiblings(c, s, siblings, expire) == {};
      WithoutNothing(s, root);
    } else {
      var l0 := siblings[0];
      var rest := siblings[1..];
      var d0 := if Reaped(c, s, l0, expire) then {l0} else {};
      var s1 := ReapOne(c, s, l0, expire);
      if Reaped(c, s, l0, expire) {
        DeleteTreeIsWithout(s, root, l0);
      } else {
        WithoutNothing(s, root);
      }
      assert s1 == Without(s, root, d0);
      ReapAllRemovesDeadSiblings(c, s1, rest, expire);
      var d1 := DeadSiblings(c, s1, rest, expire);
      WithoutTwice(s, root, d0, d1);
      forall l | l in rest
        ensures Reaped(c, s1, l, expire) ==> l in DeadSiblings(c, s, siblings, expire)
        ensures Reaped(c, s, l, expire) ==> l in d0 + d1
      {
        if l in d0 {
        } else {
          ReapedUnaffected(c, s, d0, l, expire);
        }
      }
      assert d0 + d1 == DeadSiblings(c, s, siblings, expire);
    }
  }

  /** Re-stamping the own marker changes no sibling's verdict. */
  lemma HeartbeatKeepsVerdicts(c: Config, s: Store, now: int64, l: Path, expire: int64)
    requires SetLastModified(s, MarkerPath(c), now).Ok?
    requires ChildOf(c.cacheDir, l)
    ensures Reaped(c, SetLastModified(s, MarkerPath(c), now).value, l, expire) == Reaped(c, s, l, expire)
  {
    if Name(l) != c.sessionId {
      assert l != SessionDir(c);
      assert ActivePath(l)[..|c.cacheDir| + 1] == l;
      assert MarkerPath(c)[..|c.cacheDir| + 1] == SessionDir(c);
    }
  }

  /**
    Phase A, when the heartbeat and the listing succeed: the own marker is
    stamped with `now`, and every listed sibling's subtree is deleted
    exactly when it is `Reaped` at the expiry time four periods back.
  */
  lemma ReapPhaseOutcome(c: Config, s: Store, now: int64, order: seq<Path>)
    requires MarkerPath(c) in s.entries && MarkerPath(c) !in s.faulty
    requires List(s, c.cacheDir, order).Ok?
    ensures
      var beat := SetLastModified(s, MarkerPath(c), now).value;
      var expire := ExpireTime(now, c.cleanupPeriodMs);
      ReapPhase(c, s, now, order)
        == Without(beat, c.cacheDir, DeadSiblings(c, s, ChildrenInOrder(s, c.cacheDir, order), expire))
  {
    var beat := SetLastModified(s, MarkerPath(c), now).value;
    var expire := ExpireTime(now, c.cleanupPeriodMs);
    var siblings := ChildrenInOrder(s, c.cacheDir, order);
    assert ChildrenInOrder(beat, c.cacheDir, order) == siblings by {
      ChildrenSameKeys(s, beat, c.cacheDir, order);
    }
    ReapAllRemovesDeadSiblings(c, beat, siblings, expire);
    forall l | l in siblings ensures Reaped(c, beat, l, expire) == Reaped(c, s, l, expire) {
      HeartbeatKeepsVerdicts(c, s, now, l, expire);
    }
    assert DeadSiblings(c, beat, siblings, expire) == DeadSiblings(c, s, siblings, expire);
  }

  lemma {:induction false} ChildrenSameKeys(s: Store, t: Store, dir: Path, order: seq<Path>)
    requires s.entries.Keys == t.entries.Keys
    ensures ChildrenInOrder(s, dir, order) == ChildrenInOrder(t, dir, order)
  {
    if order != [] {
      ChildrenSameKeys(s, t, dir, order[1..]);
    }
  }

  /** Phase A stamps the own marker and leaves the rest of the own session as it was. */
  lemma ReapPhaseKeepsOwnSession(c: Config, s: Store, now: int64, order: seq<Path>)
    requires MarkerPath(c) in s.entries && MarkerPath(c) !in s.faulty
    requires List(s, c.cacheDir, order).Ok?
    ensures
      var r := ReapPhase(c, s, now, order);
      && MarkerPath(c) in r.entries && r.entries[MarkerPath(c)].lastModified == now
      && r.faulty == s.faulty
      && (forall p :: p in s.entries && Under(SessionDir(c), p) && p != MarkerPath(c) ==>
            p in r.entries && r.entries[p] == s.entries[p])
  {
    var root := c.cacheDir;
    var expire := ExpireTime(now, c.cleanupPeriodMs);
    var dead := DeadSiblings(c, s, ChildrenInOrder(s, root, order), expire);
    ReapPhaseOutcome(c, s, now, order);
    assert SessionDir(c) !in dead;
    assert MarkerPath(c)[..|root| + 1] == SessionDir(c);
    forall p | Under(SessionDir(c), p) ensures !InDead(root, dead, p) {
      assert p[..|root| + 1] == SessionDir(c);
    }
  }

  /**
    Phase A deletes the whole subtree of every other session directory that
    is `Reaped`, and leaves every other one intact, when the store lists
    every entry.
  */
  lemma ReapPhaseSiblingVerdicts(c: Config, s: Store, now: int64, order: seq<Path>, x: Path)
    requires MarkerPath(c) in s.entries && MarkerPath(c) !in s.faulty
    requires List(s, c.cacheDir, order).Ok?
    requires Enumerates(s, order)
    requires x in s.entries && ChildOf(c.cacheDir, x) && x != SessionDir(c)
    ensures
      var r := ReapPhase(c, s, now, order);
      var expire := ExpireTime(now, c.cleanupPeriodMs);
      && (Reaped(c, s, x, expire) ==> forall p :: Under(x, p) ==> p !in r.entries)
      && (!Reaped(c, s, x, expire) ==> forall p :: Under(x, p) && p in s.entries ==>
            p in r.entries && r.entries[p] == s.entries[p])
  {
    var root := c.cacheDir;
    ReapPhaseOutcome(c, s, now, order);
    assert x in ChildrenInOrder(s, root, order);
    assert MarkerPath(c)[..|root| + 1] == SessionDir(c);
    forall p | Under(x, p) ensures p[..|root| + 1] == x && p != MarkerPath(c) {
      assert x[..|root|] == root;
    }
  }

  /** Phase A changes nothing outside the cache directory. */
  lemma ReapPhaseStaysInCache(c: Config, s: Store, now: int64, order: seq<Path>)
    requires MarkerPath(c) in s.entries && MarkerPath(c) !in s.faulty
    requires List(s, c.cacheDir, order).Ok?
    ensures
      var r := ReapPhase(c, s, now, order);
      forall p :: p in s.entries && !Under(c.cacheDir, p) ==> p in r.entries && r.entries[p] == s.entries[p]
  {
    ReapPhaseOutcome(c, s, now, order);
    assert Under(c.cacheDir, MarkerPath(c));
  }

  /**
    Phase A from the point of view of each session directory in the cache
    directory, when the store lists every entry: the own session keeps its
    whole subtree, with the marker stamped `now`; any other session loses
    its whole subtree when its marker is missing or at most `now - 4 *
    period` (and no IOException intervenes), and otherwise keeps it intact.
  */
  lemma ReapPhaseVerdicts(c: Config, s: Store, now: int64, order: seq<Path>)
    requires MarkerPath(c) in s.entries && MarkerPath(c) !in s.faulty
    requires List(s, c.cacheDir, order).Ok?
    requires Enumerates(s, order)
    ensures
      var r := ReapPhase(c, s, now, order);
      && MarkerPath(c) in r.entries && r.entries[MarkerPath(c)].lastModified == now
      && r.faulty == s.faulty
      && (forall p :: p in s.entries && Under(SessionDir(c), p) && p != MarkerPath(c) ==>
            p in r.entries && r.entries[p] == s.entries[p])
    ensures
      var r := ReapPhase(c, s, now, order);
      var expire := ExpireTime(now, c.cleanupPeriodMs);
      forall x :: x in s.entries && ChildOf(c.cacheDir, x) && x != SessionDir(c) ==>
        && (Reaped(c, s, x, expire) ==> forall p :: Under(x, p) ==> p !in r.entries)
        && (!Reaped(c, s, x, expire) ==> forall p :: Under(x, p) && p in s.entries ==>
              p in r.entries && r.entries[p] == s.entries[p])
    ensures
      var r := ReapPhase(c, s, now, order);
      forall p :: p in s.entries && !Under(c.cacheDir, p) ==> p in r.entries && r.entries[p] == s.entries[p]
  {
    ReapPhaseKeepsOwnSession(c, s, now, order);
    forall x | x in s.entries && ChildOf(c.cacheDir, x) && x != SessionDir(c)
      ensures
        var r := ReapPhase(c, s, now, order);
        var expire := ExpireTime(now, c.cleanupPeriodMs);
        && (Reaped(c, s, x, expire) ==> forall p :: Under(x, p) ==> p !in r.entries)
        && (!Reaped(c, s, x, expire) ==> forall p :: Under(x, p) && p in s.entries ==>
              p in r.entries && r.entries[p] == s.entries[p])
    {
      ReapPhaseSiblingVerdicts(c, s, now, order, x);
    }
    ReapPhaseStaysInCache(c, s, now, order);
  }

  /**
    A failed heartbeat (the marker is gone or unreachable) ends phase A
    before anything is listed or deleted; phase B still runs.
  */
  lemma FailedHeartbeatSkipsReaping(c: Config, s: Store, now: int64, order: seq<Path>)
    requires MarkerPath(c) !in s.entries || MarkerPath(c) in s.faulty
    ensures ReapPhase(c, s, now, order) == s
    ensures CleanupCycle(c, s, now, order) == TrimPhase(c, s, order)
  {
  }
}
