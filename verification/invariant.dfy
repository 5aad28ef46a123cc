/**
  The shape of the file system survives every cache operation: an entry
  below the top level always sits in a directory entry (`WellFormed`).
  Each store primitive the cache uses keeps the invariant under the
  conditions in which it succeeds, and so do `startUp`, `shutDown`,
  `createBundle` and both phases of the cleanup task.
*/
module CacheInvariant {
  import opened FileStore
  import opened ContentHash
  import opened BundleCache
  import opened Cleanup

  /** A file below the root has no children in a well-formed store: a child's parent is a directory. */
  lemma FileHasNoChild(s: Store, p: Path)
    requires WellFormed(s) && p != [] && p in s.entries && s.entries[p].File?
    ensures !HasChild(s, p)
  {
  }

  /**
    Removing an entry without children keeps the store well formed; so
    does removing the root, which no entry needs as its parent.
  */
  lemma RemoveLeafKeeps(s: Store, p: Path)
    requires WellFormed(s) && (p == [] || !HasChild(s, p))
    ensures WellFormed(Store(s.entries - {p}, s.faulty))
  {
    var r := Store(s.entries - {p}, s.faulty);
    forall q | q in r.entries && |q| >= 2
      ensures q[..|q| - 1] in r.entries && r.entries[q[..|q| - 1]].Directory?
    {
      assert q[..|q| - 1] != p;
    }
  }

  /**
    Writing a file where no file blocks the way and no directory stands
    keeps the store well formed: the directories made on the way are
    directories, and the ones already there were not files.
  */
  lemma PutKeeps(s: Store, p: Path, content: seq<byte>, now: int64)
    requires WellFormed(s) && !BlockedByFile(s, p)
    requires p in s.entries ==> s.entries[p].File?
    ensures WellFormed(Put(s, p, content, now))
  {
    var r := Put(s, p, content, now);
    forall q | q in r.entries && |q| >= 2
      ensures q[..|q| - 1] in r.entries && r.entries[q[..|q| - 1]].Directory?
    {
      var up := q[..|q| - 1];
      if q in s.entries && q != p {
        assert up != p;
      } else {
        assert q == p[..|q|] by {
          if q != p {
            var i :| 1 <= i < |p| && q == p[..i];
          }
        }
        assert up == p[..|q| - 1];
        assert up in Ancestors(p);
        if up in s.entries {
          assert !(p[..|q| - 1] in s.entries && s.entries[p[..|q| - 1]].File?);
        }
      }
    }
  }

  lemma WriteKeeps(s: Store, p: Path, content: seq<byte>, now: int64)
    requires WellFormed(s) && Write(s, p, content, now).Ok?
    ensures WellFormed(Write(s, p, content, now).value)
  {
    PutKeeps(s, p, content, now);
  }

  lemma CreateNewKeeps(s: Store, p: Path, now: int64)
    requires WellFormed(s) && CreateNew(s, p, now).Ok?
    ensures WellFormed(CreateNew(s, p, now).value)
  {
    if p !in s.entries {
      PutKeeps(s, p, [], now);
    }
  }

  lemma SetLastModifiedKeeps(s: Store, p: Path, t: int64)
    requires WellFormed(s) && SetLastModified(s, p, t).Ok?
    ensures WellFormed(SetLastModified(s, p, t).value)
  {
    var r := SetLastModified(s, p, t).value;
    forall q | q in r.entries && |q| >= 2
      ensures q[..|q| - 1] in r.entries && r.entries[q[..|q| - 1]].Directory?
    {
      var up := q[..|q| - 1];
      assert up in s.entries && s.entries[up].Directory?;
    }
  }

  lemma DeleteKeeps(s: Store, p: Path)
    requires WellFormed(s) && Delete(s, p).Ok?
    ensures WellFormed(Delete(s, p).value)
  {
    if p != [] && p in s.entries && s.entries[p].File? {
      FileHasNoChild(s, p);
    }
    RemoveLeafKeeps(s, p);
  }

  /** A recursive delete takes a whole subtree, so no survivor loses its parent. */
  lemma DeleteTreeKeeps(s: Store, p: Path)
    requires WellFormed(s) && DeleteTree(s, p).Ok?
    ensures WellFormed(DeleteTree(s, p).value)
  {
    var r := DeleteTree(s, p).value;
    forall q | q in r.entries && |q| >= 2
      ensures q[..|q| - 1] in r.entries && r.entries[q[..|q| - 1]].Directory?
    {
      var up := q[..|q| - 1];
      assert up in s.entries && s.entries[up].Directory?;
    }
  }

  /** Renaming a file onto a free path keeps the store well formed. */
  lemma RenameKeeps(s: Store, src: Path, dst: Path)
    requires src in s.entries ==> s.entries[src].File?
    requires WellFormed(s) && Rename(s, src, dst).Ok?
    ensures WellFormed(Rename(s, src, dst).value)
  {
    if dst !in s.entries && !BlockedByFile(s, dst) && src != dst {
      var e := s.entries[src];
      var s' := Store(s.entries - {src}, s.faulty);
      if src != [] {
        FileHasNoChild(s, src);
      }
      RemoveLeafKeeps(s, src);
      assert !BlockedByFile(s', dst);
      PutKeeps(s', dst, e.content, e.lastModified);
    }
  }

  lemma StartUpKeeps(c: Config, s: Store, now: int64)
    requires WellFormed(s) && StartUp(c, s, now).Ok?
    ensures WellFormed(StartUp(c, s, now).value)
  {
    CreateNewKeeps(s, MarkerPath(c), now);
  }

  lemma ShutDownKeeps(c: Config, s: Store)
    requires WellFormed(s) && ShutDown(c, s).Ok?
    ensures WellFormed(ShutDown(c, s).value)
  {
    DeleteKeeps(s, MarkerPath(c));
  }

  lemma PopulateKeeps(c: Config, s: Store, env: Env, classes: seq<JavaClass>,
                      name: string, nonce: string, now: int64)
    requires Exists(s, SlotPath(c, name)) == Ok(false)
    requires WellFormed(s)
    ensures WellFormed(Populate(c, s, env, classes, name, nonce, now).store)
  {
    var tmp := TempPath(c, name, nonce);
    if env.bundler(classes).Ok? && Write(s, tmp, env.bundler(classes).value, now).Ok? {
      var s1 := Write(s, tmp, env.bundler(classes).value, now).value;
      WriteKeeps(s, tmp, env.bundler(classes).value, now);
      if Rename(s1, tmp, SlotPath(c, name)).Ok? {
        RenameKeeps(s1, tmp, SlotPath(c, name));
      }
    }
  }

  lemma CopyOutKeeps(s: Store, slot: Path, target: Path, now: int64)
    requires WellFormed(s)
    ensures WellFormed(CopyOut(s, slot, target, now).store)
  {
    if Read(s, slot).Ok? && Write(s, target, Read(s, slot).value, now).Ok? {
      WriteKeeps(s, target, Read(s, slot).value, now);
    }
  }

  /** `createBundle` keeps the store well formed whether it completes or throws. */
  lemma CreateBundleKeeps(c: Config, s: Store, env: Env, target: Path,
                          classes: seq<JavaClass>, resources: seq<Resource>,
                          now: int64, nonce: string)
    requires WellFormed(s)
    ensures WellFormed(CreateBundle(c, s, env, target, classes, resources, now, nonce).store)
  {
    var name := SlotName(env.sha256, classes, resources);
    var slot := SlotPath(c, name);
    if Exists(s, slot) == Ok(false) {
      var built := Populate(c, s, env, classes, name, nonce, now);
      PopulateKeeps(c, s, env, classes, name, nonce, now);
      CopyOutKeeps(built.store, slot, target, now);
    } else if Exists(s, slot) == Ok(true) && SetLastModified(s, slot, now).Ok? {
      SetLastModifiedKeeps(s, slot, now);
      CopyOutKeeps(SetLastModified(s, slot, now).value, slot, target, now);
    }
  }

  lemma {:induction false} ReapAllKeeps(c: Config, s: Store, siblings: seq<Path>, expire: int64)
    requires WellFormed(s)
    ensures WellFormed(ReapAll(c, s, siblings, expire))
    decreases |siblings|
  {
    if siblings != [] {
      var s1 := ReapOne(c, s, siblings[0], expire);
      if Reaped(c, s, siblings[0], expire) {
        DeleteTreeKeeps(s, siblings[0]);
      }
      ReapAllKeeps(c, s1, siblings[1..], expire);
    }
  }

  lemma ReapPhaseKeeps(c: Config, s: Store, now: int64, order: seq<Path>)
    requires WellFormed(s)
    ensures WellFormed(ReapPhase(c, s, now, order))
  {
    if SetLastModified(s, MarkerPath(c), now).Ok? {
      var s1 := SetLastModified(s, MarkerPath(c), now).value;
      SetLastModifiedKeeps(s, MarkerPath(c), now);
      if List(s1, c.cacheDir, order).Ok? {
        ReapAllKeeps(c, s1, List(s1, c.cacheDir, order).value, ExpireTime(now, c.cleanupPeriodMs));
      }
    }
  }

  lemma {:induction false} DeleteEachKeeps(s: Store, victims: seq<LocationStatus>)
    requires WellFormed(s)
    ensures WellFormed(DeleteEach(s, victims))
    decreases |victims|
  {
    if victims != [] && Delete(s, victims[0].location).Ok? {
      DeleteKeeps(s, victims[0].location);
      DeleteEachKeeps(Delete(s, victims[0].location).value, victims[1..]);
    }
  }

  lemma TrimPhaseKeeps(c: Config, s: Store, order: seq<Path>)
    requires WellFormed(s)
    ensures WellFormed(TrimPhase(c, s, order))
  {
    if ListStatus(s, SessionDir(c), order).Ok? {
      DeleteEachKeeps(s, Victims(c, ListStatus(s, SessionDir(c), order).value));
    }
  }

  /** One run of the cleanup task keeps the store well formed. */
  lemma CleanupCycleKeeps(c: Config, s: Store, now: int64, order: seq<Path>)
    requires WellFormed(s)
    ensures WellFormed(CleanupCycle(c, s, now, order))
  {
    ReapPhaseKeeps(c, s, now, order);
    TrimPhaseKeeps(c, ReapPhase(c, s, now, order), order);
  }
}
