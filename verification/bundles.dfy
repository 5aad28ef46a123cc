/**
  What `createBundle` promises across calls and across sessions: a second
  request for the same inputs is served from the slot the first one
  filled, and a call never disturbs another session's subtree.
*/
module BundleFacts {
  import opened FileStore
  import opened ContentHash
  import opened BundleCache

  /**
    After a call that completed, the same request (to any target, at any
    time) finds the slot: the bundler is not called again, and the target
    receives the bytes the first call left in the slot, which on a miss
    are the bundler's output.
  */
  lemma RepeatCallIsHit(c: Config, s: Store, env: Env, target1: Path, target2: Path,
                        classes: seq<JavaClass>, resources: seq<Resource>,
                        now1: int64, now2: int64, nonce1: string, nonce2: string)
    requires CreateBundle(c, s, env, target1, classes, resources, now1, nonce1).completion.Completed?
    ensures
      var r1 := CreateBundle(c, s, env, target1, classes, resources, now1, nonce1);
      var r2 := CreateBundle(c, r1.store, env, target2, classes, resources, now2, nonce2);
      && r2.slot == r1.slot
      && r2.builderCalls == 0
      && (r2.completion.Completed? ==>
            && r2.store.entries[target2].content == r1.store.entries[r1.slot].content
            && (r1.builderCalls == 1 ==>
                  r2.store.entries[target2].content == env.bundler(classes).value))
  {
    var r1 := CreateBundle(c, s, env, target1, classes, resources, now1, nonce1);
    assert r1.slot !in s.faulty;
  }

  /**
    A call writes nothing into another session's subtree except the target
    itself or the directories leading to it: every other path there is
    present afterwards exactly when it was before, with the same entry.
  */
  lemma OtherSessionsUntouched(c: Config, s: Store, env: Env, target: Path,
                               classes: seq<JavaClass>, resources: seq<Resource>,
                               now: int64, nonce: string, other: Path)
    requires ChildOf(c.cacheDir, other) && other != SessionDir(c)
    ensures
      var r := CreateBundle(c, s, env, target, classes, resources, now, nonce);
      forall p :: Under(other, p) && !Under(p, target) ==>
        && (p in r.store.entries <==> p in s.entries)
        && (p in s.entries ==> r.store.entries[p] == s.entries[p])
  {
    var r := CreateBundle(c, s, env, target, classes, resources, now, nonce);
    var dir := SessionDir(c);
    var root := c.cacheDir;
    forall p | Under(other, p) && !Under(p, target)
      ensures p in r.store.entries <==> p in s.entries
      ensures p in s.entries ==> r.store.entries[p] == s.entries[p]
    {
      assert p[..|root| + 1] == other;
      assert p != r.slot && p != TempPath(c, Name(r.slot), nonce);
      assert p !in Ancestors(target);
    }
  }

  /**
    Two requests share a slot only when their hashed inputs have the same
    digest: the hex name keeps every byte of the digest.
  */
  lemma SameSlotMeansSameDigest(c: Config, env: Env,
                                classes1: seq<JavaClass>, resources1: seq<Resource>,
                                classes2: seq<JavaClass>, resources2: seq<Resource>)
    requires SlotPath(c, SlotName(env.sha256, classes1, resources1))
          == SlotPath(c, SlotName(env.sha256, classes2, resources2))
    ensures env.sha256(HashInput(classes1, resources1)) == env.sha256(HashInput(classes2, resources2))
  {
    var dir := SessionDir(c);
    assert SlotName(env.sha256, classes1, resources1)
        == SlotPath(c, SlotName(env.sha256, classes1, resources1))[|dir|];
    HexInjective(env.sha256(HashInput(classes1, resources1)), env.sha256(HashInput(classes2, resources2)));
  }

  /**
    The resources name the slot but never reach the bundler: two misses on
    the same classes fill their slots with the same bytes whatever the
    resources were.
  */
  lemma ResourcesDoNotReachBundler(c: Config, s1: Store, s2: Store, env: Env, target1: Path, target2: Path,
                                   classes: seq<JavaClass>, resources1: seq<Resource>, resources2: seq<Resource>,
                                   now1: int64, now2: int64, nonce1: string, nonce2: string)
    requires CreateBundle(c, s1, env, target1, classes, resources1, now1, nonce1).completion.Completed?
    requires CreateBundle(c, s2, env, target2, classes, resources2, now2, nonce2).completion.Completed?
    requires CreateBundle(c, s1, env, target1, classes, resources1, now1, nonce1).builderCalls == 1
    requires CreateBundle(c, s2, env, target2, classes, resources2, now2, nonce2).builderCalls == 1
    ensures
      var r1 := CreateBundle(c, s1, env, target1, classes, resources1, now1, nonce1);
      var r2 := CreateBundle(c, s2, env, target2, classes, resources2, now2, nonce2);
      r1.store.entries[target1].content == r2.store.entries[target2].content
  {
  }

  /**
    The varargs form builds a set of its classes: naming a class a second
    time changes neither the slot nor anything the call does.
  */
  lemma RepeatedClassChangesNothing(c: Config, s: Store, env: Env, target: Path,
                                    clz: JavaClass, classes: seq<JavaClass>, x: JavaClass,
                                    now: int64, nonce: string)
    requires x in [clz] + classes
    ensures CreateBundleVarargs(c, s, env, target, clz, classes + [x], now, nonce)
         == CreateBundleVarargs(c, s, env, target, clz, classes, now, nonce)
  {
    assert [clz] + (classes + [x]) == [clz] + classes + [x];
    DistinctInOrderIgnoresRepeat([clz] + classes, x);
  }

  /**
    Without repeated classes the varargs form hands `clz` followed by
    `classes`, in that order, to the class-list form.
  */
  lemma DistinctVarargsKeepOrder(c: Config, s: Store, env: Env, target: Path,
                                 clz: JavaClass, classes: seq<JavaClass>, now: int64, nonce: string)
    requires NoDuplicates([clz] + classes)
    ensures CreateBundleVarargs(c, s, env, target, clz, classes, now, nonce)
         == CreateBundleOf(c, s, env, target, [clz] + classes, now, nonce)
  {
  }
}
