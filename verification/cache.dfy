/**
  The bundle cache (`BundleCache`): the slot lookup and population of
  `createBundle`, its two convenience overloads, and the liveness marker
  written by `startUp` and removed by `shutDown`.

  The cache keeps its entries under `cacheDir/<sessionId>/<hash>`; the
  session's liveness marker is `cacheDir/<sessionId>/active`. The wall
  clock (`now`), the SHA-256 digest, the wrapped bundler and the random
  part of temporary file names are parameters.
*/
module BundleCache {
  import opened FileStore
  import opened ContentHash

  const ActiveFileName: string := "active"

  /**
    The cache's fixed state. `sessionId` is the run id generated once per
    cache instance; `cleanupPeriodMs` is a Java `long`, `maxEntries` an `int`.
  */
  datatype Config = Config(cacheDir: Path, sessionId: string, cleanupPeriodMs: int64, maxEntries: int32)

  /** The collaborators: the digest function and the wrapped `Bundler`, called with the classes only. */
  datatype Env = Env(sha256: seq<byte> -> Digest, bundler: seq<JavaClass> -> Result<seq<byte>>)

  datatype Completion = Completed | Failed(error: IOError)

  /**
    What one `createBundle` call leaves behind: the store, how many times the
    bundler was called, the slot it looked up, and whether it returned
    normally or threw.
  */
  datatype BundleOutcome = BundleOutcome(store: Store, builderCalls: nat, slot: Path, completion: Completion)

  function SessionDir(c: Config): (d: Path)
    ensures ChildOf(c.cacheDir, d) && Name(d) == c.sessionId
  {
    Append(c.cacheDir, c.sessionId)
  }

  function MarkerPath(c: Config): (p: Path)
    ensures ChildOf(SessionDir(c), p) && Name(p) == ActiveFileName
  {
    Append(SessionDir(c), ActiveFileName)
  }

  function SlotPath(c: Config, name: string): (p: Path)
    ensures ChildOf(SessionDir(c), p) && Name(p) == name
  {
    Append(SessionDir(c), name)
  }

  /**
    `getTempFile(".tmp")` of a slot: a sibling of the slot whose name is the
    slot's name, a random part and the suffix, so it never names the slot.
  */
  function TempPath(c: Config, name: string, nonce: string): (p: Path)
    ensures ChildOf(SessionDir(c), p) && p != SlotPath(c, name)
  {
    var tmp := name + "." + nonce + ".tmp";
    assert |tmp| > |name|;
    Append(SessionDir(c), tmp)
  }

  /** The store after one step of `createBundle`, and whether that step threw. */
  datatype Step = Step(store: Store, completion: Completion)

  /**
    The miss path: the bundler builds the temporary file from the classes,
    which is then renamed onto the (absent) slot.
  */
  function Populate(c: Config, s: Store, env: Env, classes: seq<JavaClass>,
                    name: string, nonce: string, now: int64): (r: Step)
    requires Exists(s, SlotPath(c, name)) == Ok(false)
    // the build completes exactly when the bundler succeeds and its output can be written
    ensures r.completion.Completed? <==>
      env.bundler(classes).Ok? && Write(s, TempPath(c, name, nonce), env.bundler(classes).value, now).Ok?
    ensures r.completion.Completed? ==>
      && env.bundler(classes).Ok?
      && SlotPath(c, name) in r.store.entries
      && r.store.entries[SlotPath(c, name)] == File(now, env.bundler(classes).value)
    // a build that throws publishes nothing: the slot stays absent and the store unchanged
    ensures r.completion.Failed? ==> r.store == s
    ensures r.store.faulty == s.faulty
    ensures forall p :: p in s.entries && p != TempPath(c, name, nonce) ==>
      p in r.store.entries && r.store.entries[p] == s.entries[p]
    ensures forall p :: p in r.store.entries && p !in s.entries ==>
      p == SlotPath(c, name) || p in Ancestors(SlotPath(c, name))
  {
    var slot := SlotPath(c, name);
    var tmp := TempPath(c, name, nonce);
    match env.bundler(classes)
    case Err(e) => Step(s, Failed(e))
    case Ok(jar) =>
      match Write(s, tmp, jar, now)
      case Err(e) => Step(s, Failed(e))
      case Ok(s1) =>
        SiblingsShareAncestors(SessionDir(c), tmp, slot);
        SiblingsShareBlocking(s, SessionDir(c), tmp, slot);
        match Rename(s1, tmp, slot)
        case Err(e) => Step(s1, Failed(e))  // cannot happen: neither path is faulty
        case Ok(s2) => Step(s2, Completed)
  }

  /** Copies the slot's bytes to the target (`ByteStreams.copy`). */
  function CopyOut(s: Store, slot: Path, target: Path, now: int64): (r: Step)
    ensures r.completion.Completed? <==> Read(s, slot).Ok? && Write(s, target, Read(s, slot).value, now).Ok?
    ensures r.completion.Completed? ==> r.store == Put(s, target, s.entries[slot].content, now)
    ensures r.completion.Failed? ==> r.store == s
  {
    match Read(s, slot)
    case Err(e) => Step(s, Failed(e))
    case Ok(bytes) =>
      match Write(s, target, bytes, now)
      case Err(e) => Step(s, Failed(e))
      case Ok(s') => Step(s', Completed)
  }

  /**
    `createBundle(target, classes, resources)`. The slot is named by the hash
    of the classes then the resources and looked up in the caller's session
    only. On a miss the bundler builds a temporary file from the classes
    alone, which is then renamed onto the slot; on a hit the slot is
    re-stamped with `now`. Either way the slot is then copied to `target`.
  */
  function CreateBundle(c: Config, s: Store, env: Env, target: Path,
                        classes: seq<JavaClass>, resources: seq<Resource>,
                        now: int64, nonce: string): (r: BundleOutcome)
    // the slot lives in the caller's own session, named by the content hash
    ensures r.slot == SlotPath(c, Hex(env.sha256(HashInput(classes, resources))))
    ensures ChildOf(SessionDir(c), r.slot)
    // the bundler runs exactly on a miss, at most once
    ensures r.builderCalls == (if r.slot !in s.faulty && r.slot !in s.entries then 1 else 0)
    // an unreachable slot makes the call throw before anything is written
    ensures r.slot in s.faulty ==> r.completion.Failed? && r.store == s
    // miss: the call completes exactly when the build and then the copy complete
    ensures r.builderCalls == 1 ==>
      var built := Populate(c, s, env, classes, SlotName(env.sha256, classes, resources), nonce, now);
      r.completion.Completed? <==>
        built.completion.Completed? && CopyOut(built.store, r.slot, target, now).completion.Completed?
    // miss: a successful build publishes the slot, even when the copy then throws;
    // the slot carries the time of the temporary write, which the rename keeps
    ensures r.builderCalls == 1 && env.bundler(classes).Ok? &&
            Write(s, TempPath(c, SlotName(env.sha256, classes, resources), nonce), env.bundler(classes).value, now).Ok? ==>
      && r.slot in r.store.entries
      && r.store.entries[r.slot] == File(now, env.bundler(classes).value)
    // miss: a build that throws leaves the cache as it was, without a slot
    ensures r.builderCalls == 1 && !(env.bundler(classes).Ok? &&
            Write(s, TempPath(c, SlotName(env.sha256, classes, resources), nonce), env.bundler(classes).value, now).Ok?) ==>
      r.completion.Failed? && r.store == s
    // hit: the slot is re-stamped with the current time, even when the copy then
    // throws, and the call completes exactly when the copy from it completes
    ensures r.builderCalls == 0 && r.slot !in s.faulty ==>
      && r.slot in s.entries && r.slot in r.store.entries
      && r.store.entries[r.slot].lastModified == now
      && (s.entries[r.slot].File? ==> r.store.entries[r.slot] == File(now, s.entries[r.slot].content))
      && (r.completion.Completed? <==>
            CopyOut(SetLastModified(s, r.slot, now).value, r.slot, target, now).completion.Completed?)
    // miss: the slot now holds what the bundler built from the classes
    ensures r.builderCalls == 1 && r.completion.Completed? ==>
      && env.bundler(classes).Ok?
      && r.slot in r.store.entries && r.store.entries[r.slot].File?
      && r.store.entries[r.slot].content == env.bundler(classes).value
    // hit: the slot keeps its bytes and is stamped with the current time
    ensures r.builderCalls == 0 && r.completion.Completed? ==>
      && r.slot in s.entries && s.entries[r.slot].File? && r.slot in r.store.entries
      && r.store.entries[r.slot] == File(now, s.entries[r.slot].content)
    // both: the target holds the slot's bytes
    ensures r.completion.Completed? ==>
      && target in r.store.entries && r.store.entries[target].File?
      && r.slot in r.store.entries && r.store.entries[r.slot].File?
      && r.store.entries[target].content == r.store.entries[r.slot].content
    // nothing else changes: only the slot, its temporary file and the target
    // (with any directories the target needed) are written
    ensures r.store.faulty == s.faulty
    ensures forall p :: p in s.entries && p != r.slot && p != target &&
                        p != TempPath(c, Name(r.slot), nonce) ==>
      p in r.store.entries && r.store.entries[p] == s.entries[p]
    ensures forall p :: p in r.store.entries && p !in s.entries ==>
      p == r.slot || p == target || p in Ancestors(target) || p in Ancestors(r.slot)
  {
    var name := SlotName(env.sha256, classes, resources);
    var slot := SlotPath(c, name);
    match Exists(s, slot)
    case Err(e) => BundleOutcome(s, 0, slot, Failed(e))
    case Ok(present) =>
      if !present then
        var built := Populate(c, s, env, classes, name, nonce, now);
        if built.completion.Failed? then BundleOutcome(built.store, 1, slot, built.completion)
        else
          var copied := CopyOut(built.store, slot, target, now);
          BundleOutcome(copied.store, 1, slot, copied.completion)
      else
        match SetLastModified(s, slot, now)
        case Err(e) => BundleOutcome(s, 0, slot, Failed(e))
        case Ok(s2) =>
          var copied := CopyOut(s2, slot, target, now);
          BundleOutcome(copied.store, 0, slot, copied.completion)
  }

  /** The position of the first occurrence of `x` in `xs`, or `|xs|` when there is none. */
  function IndexOf<T(==)>(xs: seq<T>, x: T): (i: nat)
    ensures i <= |xs| && x !in xs[..i]
    ensures i < |xs| <==> x in xs
    ensures i < |xs| ==> xs[i] == x
  {
    if xs == [] then 0
    else if xs[0] == x then 0
    else
      assert xs[1..][..IndexOf(xs[1..], x)] == xs[1..IndexOf(xs[1..], x) + 1];
      1 + IndexOf(xs[1..], x)
  }

  lemma {:induction false} IndexOfPrefix<T>(xs: seq<T>, n: nat, x: T)
    requires n <= |xs| && x in xs[..n]
    ensures IndexOf(xs[..n], x) == IndexOf(xs, x)
  {
    if xs[0] != x {
      assert xs[..n][1..] == xs[1..][..n - 1];
      IndexOfPrefix(xs[1..], n - 1, x);
    }
  }

  /** Every element of `r` comes before the later ones in first-occurrence order of `xs`. */
  predicate InFirstOccurrenceOrder(xs: seq<JavaClass>, r: seq<JavaClass>) {
    forall i, j :: 0 <= i < j < |r| ==> IndexOf(xs, r[i]) < IndexOf(xs, r[j])
  }

  /**
    `ImmutableSet.builder().add(clz).add(classes).build()`: the elements
    each once, in the order of their first occurrence.
  */
  function DistinctInOrder(xs: seq<JavaClass>): (r: seq<JavaClass>)
    ensures forall x :: x in r <==> x in xs
    ensures NoDuplicates(r)
    ensures NoDuplicates(xs) ==> r == xs
    ensures xs != [] ==> r != [] && r[0] == xs[0]
    decreases |xs|
  {
    if xs == [] then []
    else
      var init := DistinctInOrder(xs[..|xs| - 1]);
      var last := xs[|xs| - 1];
      assert xs == xs[..|xs| - 1] + [last];
      if last in init then init else init + [last]
  }

  /** Earlier first occurrences come first. */
  lemma {:induction false} DistinctInOrderKeepsOrder(xs: seq<JavaClass>)
    ensures InFirstOccurrenceOrder(xs, DistinctInOrder(xs))
    decreases |xs|
  {
    if xs != [] {
      var prefix := xs[..|xs| - 1];
      var init := DistinctInOrder(prefix);
      var last := xs[|xs| - 1];
      DistinctInOrderKeepsOrder(prefix);
      PrefixIndicesAgree(xs, init);
      if last in init {
        assert DistinctInOrder(xs) == init;
      } else {
        assert DistinctInOrder(xs) == init + [last];
        assert last !in prefix;
        AppendKeepsOrder(xs, init, last);
      }
    }
  }

  /** The classes built from all but the last element sit at the same first positions in `xs`. */
  lemma PrefixIndicesAgree(xs: seq<JavaClass>, init: seq<JavaClass>)
    requires xs != [] && init == DistinctInOrder(xs[..|xs| - 1])
    ensures forall i :: 0 <= i < |init| ==> IndexOf(xs[..|xs| - 1], init[i]) == IndexOf(xs, init[i]) < |xs| - 1
  {
    forall i | 0 <= i < |init| ensures IndexOf(xs[..|xs| - 1], init[i]) == IndexOf(xs, init[i]) < |xs| - 1 {
      IndexOfPrefix(xs, |xs| - 1, init[i]);
    }
  }

  /** A class first seen at the end of `xs` comes after every earlier one. */
  lemma AppendKeepsOrder(xs: seq<JavaClass>, init: seq<JavaClass>, last: JavaClass)
    requires xs != [] && last == xs[|xs| - 1] && last !in xs[..|xs| - 1]
    requires InFirstOccurrenceOrder(xs[..|xs| - 1], init)
    requires forall i :: 0 <= i < |init| ==> IndexOf(xs[..|xs| - 1], init[i]) == IndexOf(xs, init[i]) < |xs| - 1
    ensures InFirstOccurrenceOrder(xs, init + [last])
  {
    IndexOfLast(xs);
    var r := init + [last];
    forall i, j | 0 <= i < j < |r| ensures IndexOf(xs, r[i]) < IndexOf(xs, r[j]) {
      assert r[i] == init[i];
      if j < |init| {
        assert r[j] == init[j];
        assert IndexOf(xs[..|xs| - 1], init[i]) < IndexOf(xs[..|xs| - 1], init[j]);
      } else {
        assert r[j] == last;
      }
    }
  }

  /** An element absent from the rest is first found at the end. */
  lemma IndexOfLast(xs: seq<JavaClass>)
    requires xs != [] && xs[|xs| - 1] !in xs[..|xs| - 1]
    ensures IndexOf(xs, xs[|xs| - 1]) == |xs| - 1
  {
  }

  /** Adding a class that is already there leaves the set builder's result as it was. */
  lemma DistinctInOrderIgnoresRepeat(xs: seq<JavaClass>, x: JavaClass)
    requires x in xs
    ensures DistinctInOrder(xs + [x]) == DistinctInOrder(xs)
  {
  }

  /** `createBundle(target, classes)`: the three-argument form with no resources. */
  function CreateBundleOf(c: Config, s: Store, env: Env, target: Path,
                          classes: seq<JavaClass>, now: int64, nonce: string): (r: BundleOutcome)
    ensures r == CreateBundle(c, s, env, target, classes, [], now, nonce)
    ensures r.slot == SlotPath(c, Hex(env.sha256(ClassBytes(classes))))
  {
    HashInputIsClassesThenResources(classes, []);
    assert ClassBytes(classes) + ResourceBytes([]) == ClassBytes(classes);
    CreateBundle(c, s, env, target, classes, [], now, nonce)
  }

  /**
    `createBundle(target, clz, classes...)`: the class-list form on `clz`
    followed by `classes`, duplicates dropped, first occurrences kept in order.
  */
  function CreateBundleVarargs(c: Config, s: Store, env: Env, target: Path,
                               clz: JavaClass, classes: seq<JavaClass>,
                               now: int64, nonce: string): (r: BundleOutcome)
    ensures r == CreateBundle(c, s, env, target, DistinctInOrder([clz] + classes), [], now, nonce)
    ensures r.slot == SlotPath(c, Hex(env.sha256(ClassBytes(DistinctInOrder([clz] + classes)))))
  {
    CreateBundleOf(c, s, env, target, DistinctInOrder([clz] + classes), now, nonce)
  }

  /**
    `startUp`: creates the session's liveness marker (and the session
    directory). An existing marker is left as it is.
  */
  function StartUp(c: Config, s: Store, now: int64): (r: Result<Store>)
    ensures r.Ok? <==> MarkerPath(c) !in s.faulty && (MarkerPath(c) in s.entries || !BlockedByFile(s, MarkerPath(c)))
    ensures r.Ok? ==> MarkerPath(c) in r.value.entries && r.value.faulty == s.faulty
    ensures r.Ok? && MarkerPath(c) !in s.entries ==> r.value.entries[MarkerPath(c)] == File(now, [])
    ensures r.Ok? && MarkerPath(c) !in s.entries ==> SessionDir(c) in r.value.entries
    ensures r.Ok? ==> forall p :: p in s.entries ==> p in r.value.entries && r.value.entries[p] == s.entries[p]
    ensures r.Ok? ==> forall p :: p in r.value.entries && p !in s.entries ==>
      p == MarkerPath(c) || p in Ancestors(MarkerPath(c))
  {
    var marker := MarkerPath(c);
    assert SessionDir(c) == marker[..|marker| - 1] && SessionDir(c) in Ancestors(marker);
    CreateNew(s, marker, now)
  }

  /**
    `shutDown` (after the timer is cancelled): deletes the liveness marker
    and nothing else; the session's entries stay for other sessions to reap.
  */
  function ShutDown(c: Config, s: Store): (r: Result<Store>)
    ensures r.Err? <==> (MarkerPath(c) in s.faulty ||
      (MarkerPath(c) in s.entries && s.entries[MarkerPath(c)].Directory? && HasChild(s, MarkerPath(c))))
    ensures r.Ok? ==> MarkerPath(c) !in r.value.entries && r.value.faulty == s.faulty
    ensures r.Ok? ==> forall p :: p in s.entries && p != MarkerPath(c) ==>
      p in r.value.entries && r.value.entries[p] == s.entries[p]
    ensures r.Ok? ==> r.value.entries.Keys <= s.entries.Keys
  {
    Delete(s, MarkerPath(c))
  }
}
