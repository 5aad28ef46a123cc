/**
  Running the cleanup task twice at the same instant does no more than
  running it once: after one cycle no sibling is stale any more, the own
  marker already carries `now`, and the session directory is within its
  limit.
*/
module CycleFixpoint {
  import opened FileStore
  import opened BundleCache
  import opened Cleanup
  import opened Reaping
  import opened Trimming
  import opened StatusSort
  import opened Survivors

  /** Re-stamping an entry with the time it already carries changes nothing. */
  lemma HeartbeatAgain(s: Store, p: Path, t: int64)
    requires p in s.entries && p !in s.faulty && s.entries[p].lastModified == t
    ensures SetLastModified(s, p, t) == Ok(s)
  {
    assert SetLastModified(s, p, t).value.entries == s.entries;
  }

  lemma SubsetCount(a: set<Path>, b: set<Path>)
    requires a <= b
    ensures |a| <= |b|
  {
    assert b == a + (b - a);
  }

  /**
    Phase A never adds an entry, never changes the faulty set, changes no
    entry's kind, and changes no entry other than the own marker.
  */
  lemma ReapPhaseShrinks(c: Config, s: Store, now: int64, order: seq<Path>)
    ensures var a := ReapPhase(c, s, now, order);
      && a.faulty == s.faulty
      && (forall p :: p in a.entries ==> p in s.entries && a.entries[p].Directory? == s.entries[p].Directory?)
      && (forall p :: p in a.entries && p != MarkerPath(c) ==> a.entries[p] == s.entries[p])
  {
    var m := MarkerPath(c);
    if m in s.entries && m !in s.faulty {
      var beat := SetLastModified(s, m, now).value;
      assert c.cacheDir != m;
      if List(s, c.cacheDir, order).Ok? {
        ReapPhaseOutcome(c, s, now, order);
      }
    }
  }

  /**
    The first phase of a second cycle at the same instant changes nothing:
    the marker (if it survived) already carries `now`, and every sibling
    that survived the first cycle is still not stale.
  */
  lemma ReapAfterCycle(c: Config, s: Store, now: int64, order: seq<Path>)
    requires Enumerates(s, order)
    ensures var b := CleanupCycle(c, s, now, order);
      ReapPhase(c, b, now, order) == b
  {
    var a := ReapPhase(c, s, now, order);
    var b := TrimPhase(c, a, order);
    var m := MarkerPath(c);
    var root := c.cacheDir;
    ReapPhaseShrinks(c, s, now, order);
    TrimPhaseOnlyDeletesSessionEntries(c, a, order);
    assert !ChildOf(SessionDir(c), root) && root != m;
    if m in b.entries && m !in b.faulty {
      assert m in s.entries && m !in s.faulty;
      if List(s, root, order).Ok? {
        ReapPhaseKeepsOwnSession(c, s, now, order);
        HeartbeatAgain(b, m, now);
        var expire := ExpireTime(now, c.cleanupPeriodMs);
        var sibs := ChildrenInOrder(b, root, order);
        SurvivorsNotReaped(c, s, now, order);
        ReapAllRemovesDeadSiblings(c, b, sibs, expire);
        assert DeadSiblings(c, b, sibs, expire) == {};
        WithoutNothing(b, root);
      } else {
        HeartbeatAgain(b, m, now);
      }
    }
  }

  /**
    After a cycle whose first phase reaped, no surviving sibling of the
    session directory is `Reaped` at the same instant.
  */
  lemma SurvivorsNotReaped(c: Config, s: Store, now: int64, order: seq<Path>)
    requires Enumerates(s, order)
    requires MarkerPath(c) in s.entries && MarkerPath(c) !in s.faulty
    requires List(s, c.cacheDir, order).Ok?
    ensures var b := CleanupCycle(c, s, now, order);
      forall l :: l in b.entries && ChildOf(c.cacheDir, l) ==>
        !Reaped(c, b, l, ExpireTime(now, c.cleanupPeriodMs))
  {
    var b := CleanupCycle(c, s, now, order);
    forall l | l in b.entries && ChildOf(c.cacheDir, l)
      ensures !Reaped(c, b, l, ExpireTime(now, c.cleanupPeriodMs))
    {
      SurvivorNotReaped(c, s, now, order, l);
    }
  }

  lemma SurvivorNotReaped(c: Config, s: Store, now: int64, order: seq<Path>, l: Path)
    requires Enumerates(s, order)
    requires MarkerPath(c) in s.entries && MarkerPath(c) !in s.faulty
    requires List(s, c.cacheDir, order).Ok?
    requires l in CleanupCycle(c, s, now, order).entries && ChildOf(c.cacheDir, l)
    ensures !Reaped(c, CleanupCycle(c, s, now, order), l, ExpireTime(now, c.cleanupPeriodMs))
  {
    var a := ReapPhase(c, s, now, order);
    var b := TrimPhase(c, a, order);
    if Name(l) != c.sessionId {
      var act := ActivePath(l);
      ReapSurvivorIntact(c, s, now, order, l);
      TrimPhaseOnlyDeletesSessionEntries(c, a, order);
      assert act[..|c.cacheDir| + 1] == l;
      assert !ChildOf(SessionDir(c), act);
      assert act in b.entries <==> act in a.entries;
    }
  }

  /**
    A sibling that survives phase A was not stale, and its marker is as it
    was before the phase.
  */
  lemma ReapSurvivorIntact(c: Config, s: Store, now: int64, order: seq<Path>, l: Path)
    requires Enumerates(s, order)
    requires MarkerPath(c) in s.entries && MarkerPath(c) !in s.faulty
    requires List(s, c.cacheDir, order).Ok?
    requires l in ReapPhase(c, s, now, order).entries && ChildOf(c.cacheDir, l) && Name(l) != c.sessionId
    ensures var a := ReapPhase(c, s, now, order);
      var act := ActivePath(l);
      && !Reaped(c, s, l, ExpireTime(now, c.cleanupPeriodMs))
      && (act in a.entries <==> act in s.entries)
      && (act in a.entries ==> a.entries[act] == s.entries[act])
  {
    ReapPhaseVerdicts(c, s, now, order);
    assert l != SessionDir(c);
    assert Under(l, l);
    assert Under(l, ActivePath(l));
  }

  /**
    Phase B settles: run again on its own result it deletes nothing more.
    Either the first run left at most `maxEntries` entries, or a delete
    threw; then the entry that threw is still the oldest left over its
    limit, and its delete throws again before anything else is deleted.
  */
  lemma TrimPhaseSettles(c: Config, a: Store, order: seq<Path>)
    requires Enumerates(a, order)
    requires |ChildrenOf(a, SessionDir(c))| < Two31
    ensures var b := TrimPhase(c, a, order);
      TrimPhase(c, b, order) == b
  {
    var b := TrimPhase(c, a, order);
    var dir := SessionDir(c);
    if ListStatus(a, dir, order).Ok? {
      ListedFacts(a, dir, order);
      if c.maxEntries < 0 {
        NegativeLimitNeverTrims(c, a, order);
        NegativeLimitNeverTrims(c, b, order);
      } else if |Listed(a, dir, order)| <= c.maxEntries {
        TrimPhaseWithinLimit(c, a, order);
        TrimPhaseWithinLimit(c, b, order);
      } else {
        OverLimitSettles(c, a, order);
      }
    }
  }

  /**
    Over the limit, a first run of phase B deletes the oldest entries up to
    the first delete that throws; the second run lists what is left, in the
    same order, and starts with that same delete, or is within the limit.
  */
  lemma OverLimitSettles(c: Config, a: Store, order: seq<Path>)
    requires Enumerates(a, order)
    requires ListStatus(a, SessionDir(c), order).Ok?
    requires 0 <= c.maxEntries < |Listed(a, SessionDir(c), order)| < Two31
    ensures var b := TrimPhase(c, a, order);
      TrimPhase(c, b, order) == b
  {
    var dir := SessionDir(c);
    var sorted := SortByLastModified(Listed(a, dir, order));
    var j := TrimStopsAtFirstFailure(c, a, order);
    var b := TrimPhase(c, a, order);
    RelistAfterTrim(c, a, order, j);
    var relisted := Listed(b, dir, order);
    if |relisted| <= c.maxEntries {
      TrimPhaseWithinLimit(c, b, order);
    } else {
      VictimsOverLimit(c, relisted);
      var again := Victims(c, relisted);
      assert again != [] && again[0] == sorted[j];
      assert TrimPhase(c, b, order) == DeleteEach(b, again);
    }
  }

  /**
    Removing the oldest `j` entries of the session directory leaves a
    directory that lists the others, and sorts them as before.
  */
  lemma RelistAfterTrim(c: Config, a: Store, order: seq<Path>, j: nat)
    requires Enumerates(a, order)
    requires ListStatus(a, SessionDir(c), order).Ok?
    requires j <= |Listed(a, SessionDir(c), order)|
    ensures var sorted := SortByLastModified(Listed(a, SessionDir(c), order));
      var b := Store(a.entries - Locations(sorted[..j]), a.faulty);
      && ListStatus(b, SessionDir(c), order).Ok?
      && SortByLastModified(Listed(b, SessionDir(c), order)) == sorted[j..]
  {
    var dir := SessionDir(c);
    var listed := Listed(a, dir, order);
    var sorted := SortByLastModified(listed);
    var gone := Locations(sorted[..j]);
    ListedFacts(a, dir, order);
    SortKeepsLocationsDistinct(listed);
    DirNotListed(a, dir, order, sorted[..j]);
    ListedAfterRemoval(a, dir, order, gone);
    SortSurviving(listed, gone);
    SurvivingAfterPrefix(sorted, j);
  }

  /**
    The second phase of a second cycle changes nothing: phase A of the
    first cycle only removed entries, and phase B settles.
  */
  lemma TrimAfterCycle(c: Config, s: Store, now: int64, order: seq<Path>)
    requires Enumerates(s, order)
    requires |ChildrenOf(s, SessionDir(c))| < Two31
    ensures var b := CleanupCycle(c, s, now, order);
      TrimPhase(c, b, order) == b
  {
    var a := ReapPhase(c, s, now, order);
    var dir := SessionDir(c);
    ReapPhaseShrinks(c, s, now, order);
    SubsetCount(ChildrenOf(a, dir), ChildrenOf(s, dir));
    TrimPhaseSettles(c, a, order);
  }

  /**
    The cleanup task is idempotent at a fixed instant: a second run right
    after the first deletes nothing and stamps nothing new, even when a
    delete of the first run threw.
  */
  lemma CleanupCycleIdempotent(c: Config, s: Store, now: int64, order: seq<Path>)
    requires Enumerates(s, order)
    requires |ChildrenOf(s, SessionDir(c))| < Two31
    ensures var b := CleanupCycle(c, s, now, order);
      CleanupCycle(c, b, now, order) == b
  {
    ReapAfterCycle(c, s, now, order);
    TrimAfterCycle(c, s, now, order);
  }
}
