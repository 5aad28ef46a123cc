/**
  The hierarchical store the bundle cache works on: the subset of the
  `Location` interface that the cache uses (exists, lastModified,
  setLastModified, createNew, output and input streams, renameTo, delete,
  list and listStatus), stated over an immutable value.

  A store maps paths to entries. Directories are explicit entries. The set
  `faulty` holds the paths on which every operation throws an IOException
  (an unreachable datanode, a permission problem); it is how the model
  exercises the error paths of the cache.
*/
module FileStore {

  /** An unsigned byte of a stream. */
  type byte = x: int | 0 <= x < 0x100

  /** Java `long`. */
  type int64 = x: int | -0x8000_0000_0000_0000 <= x < 0x8000_0000_0000_0000

  /** Java `int`. */
  type int32 = x: int | -0x8000_0000 <= x < 0x8000_0000

  /** A path is the list of its components; the file-system root is `[]`. */
  type Path = seq<string>

  datatype Entry =
    | File(lastModified: int64, content: seq<byte>)
    | Directory(lastModified: int64)

  datatype Store = Store(entries: map<Path, Entry>, faulty: set<Path>)

  datatype IOError =
    | Faulty(path: Path)
    | NotFound(path: Path)
    | IsADirectory(path: Path)
    | NotADirectory(path: Path)
    | DirectoryNotEmpty(path: Path)

  datatype Result<T> = Ok(value: T) | Err(error: IOError) {
    predicate IsFailure() { Err? }
    function PropagateFailure<U>(): Result<U>
      requires Err?
    {
      Err(error)
    }
    function Extract(): T
      requires Ok?
    {
      value
    }
  }

  /** The status record of one listed location: `LocationStatus`. */
  datatype LocationStatus = LocationStatus(location: Path, directory: bool, lastModified: int64, length: int)

  /** `p` is `dir` itself or lies somewhere below it. */
  predicate Under(dir: Path, p: Path) {
    |dir| <= |p| && p[..|dir|] == dir
  }

  /** `p` is an immediate child of `dir`. */
  predicate ChildOf(dir: Path, p: Path) {
    |p| == |dir| + 1 && p[..|dir|] == dir
  }

  /** `Location.append`. */
  function Append(dir: Path, name: string): (p: Path)
    ensures ChildOf(dir, p) && p[|dir|] == name
  {
    dir + [name]
  }

  /** `Location.getName`: the last component ("" for the root). */
  function Name(p: Path): string {
    if p == [] then "" else p[|p| - 1]
  }

  /** The non-root proper ancestors of `p`: the directories creating `p` may have to make. */
  function Ancestors(p: Path): set<Path> {
    set i | 1 <= i < |p| :: p[..i]
  }

  /**
    Every entry below the top level sits in a directory entry. The cache's
    own operations keep this invariant (module CacheInvariant).
  */
  ghost predicate WellFormed(s: Store) {
    forall p :: p in s.entries && |p| >= 2 ==>
      p[..|p| - 1] in s.entries && s.entries[p[..|p| - 1]].Directory?
  }

  /** Two children of one directory have the same ancestors. */
  lemma SiblingsShareAncestors(dir: Path, a: Path, b: Path)
    requires ChildOf(dir, a) && ChildOf(dir, b)
    ensures Ancestors(a) == Ancestors(b)
  {
    forall q | q in Ancestors(a) ensures q in Ancestors(b) {
      var i :| 1 <= i < |a| && q == a[..i];
      assert a[..i] == dir[..i] == b[..i];
    }
    forall q | q in Ancestors(b) ensures q in Ancestors(a) {
      var i :| 1 <= i < |b| && q == b[..i];
      assert b[..i] == dir[..i] == a[..i];
    }
  }

  /** Some non-root proper ancestor of `p` is a file, so nothing can be created at `p`. */
  predicate BlockedByFile(s: Store, p: Path) {
    exists i :: 1 <= i < |p| && p[..i] in s.entries && s.entries[p[..i]].File?
  }

  /** Two children of one directory are blocked by the same files. */
  lemma SiblingsShareBlocking(s: Store, dir: Path, a: Path, b: Path)
    requires ChildOf(dir, a) && ChildOf(dir, b)
    ensures BlockedByFile(s, a) <==> BlockedByFile(s, b)
  {
    if BlockedByFile(s, a) {
      var i :| 1 <= i < |a| && a[..i] in s.entries && s.entries[a[..i]].File?;
      assert a[..i] == dir[..i] == b[..i];
    }
    if BlockedByFile(s, b) {
      var i :| 1 <= i < |b| && b[..i] in s.entries && s.entries[b[..i]].File?;
      assert b[..i] == dir[..i] == a[..i];
    }
  }

  /** Adds `File(now, content)` at `p`, making the missing ancestors as directories stamped `now`. */
  function Put(s: Store, p: Path, content: seq<byte>, now: int64): (r: Store)
    ensures r.faulty == s.faulty
    ensures p in r.entries && r.entries[p] == File(now, content)
    ensures forall q :: q in r.entries && q !in s.entries ==> q == p || q in Ancestors(p)
    ensures forall q :: q in s.entries && q != p ==> q in r.entries && r.entries[q] == s.entries[q]
    ensures Ancestors(p) <= r.entries.Keys
    ensures forall q :: q in Ancestors(p) && q !in s.entries ==> r.entries[q] == Directory(now)
  {
    var dirs := map a | a in Ancestors(p) && a !in s.entries :: Directory(now);
    Store((s.entries + dirs)[p := File(now, content)], s.faulty)
  }

  /** `Location.exists`. */
  function Exists(s: Store, p: Path): (r: Result<bool>)
    ensures r.Err? <==> p in s.faulty
    ensures r.Ok? ==> (r.value <==> p in s.entries)
  {
    if p in s.faulty then Err(Faulty(p)) else Ok(p in s.entries)
  }

  /** `Location.lastModified`. */
  function LastModified(s: Store, p: Path): (r: Result<int64>)
    ensures r.Ok? <==> p !in s.faulty && p in s.entries
    ensures r.Ok? ==> r.value == s.entries[p].lastModified
  {
    if p in s.faulty then Err(Faulty(p))
    else if p !in s.entries then Err(NotFound(p))
    else Ok(s.entries[p].lastModified)
  }

  /** `Location.setLastModified`: re-stamps an existing entry and nothing else. */
  function SetLastModified(s: Store, p: Path, t: int64): (r: Result<Store>)
    ensures r.Ok? <==> p !in s.faulty && p in s.entries
    ensures r.Ok? ==> r.value.faulty == s.faulty && r.value.entries.Keys == s.entries.Keys
    ensures r.Ok? ==> r.value.entries[p].lastModified == t
    ensures r.Ok? && s.entries[p].File? ==> r.value.entries[p] == File(t, s.entries[p].content)
    ensures r.Ok? ==> forall q :: q in s.entries && q != p ==> r.value.entries[q] == s.entries[q]
  {
    if p in s.faulty then Err(Faulty(p))
    else if p !in s.entries then Err(NotFound(p))
    else
      var e := s.entries[p];
      var e' := if e.File? then File(t, e.content) else Directory(t);
      Ok(Store(s.entries[p := e'], s.faulty))
  }

  /**
    `Location.createNew`: makes an empty file (and its missing parents)
    unless something already exists at `p`, in which case nothing changes.
  */
  function CreateNew(s: Store, p: Path, now: int64): (r: Result<Store>)
    ensures p in s.faulty ==> r.Err?
    ensures r.Ok? && p in s.entries ==> r.value == s
    ensures r.Ok? && p !in s.entries ==> r.value == Put(s, p, [], now)
    ensures p !in s.faulty && !BlockedByFile(s, p) ==> r.Ok?
  {
    if p in s.faulty then Err(Faulty(p))
    else if p in s.entries then Ok(s)
    else if BlockedByFile(s, p) then Err(NotADirectory(p))
    else Ok(Put(s, p, [], now))
  }

  /** Writing a whole stream through `Location.getOutputStream`. */
  function Write(s: Store, p: Path, content: seq<byte>, now: int64): (r: Result<Store>)
    ensures r.Ok? <==> p !in s.faulty && !(p in s.entries && s.entries[p].Directory?) && !BlockedByFile(s, p)
    ensures r.Ok? ==> r.value == Put(s, p, content, now)
  {
    if p in s.faulty then Err(Faulty(p))
    else if p in s.entries && s.entries[p].Directory? then Err(IsADirectory(p))
    else if BlockedByFile(s, p) then Err(NotADirectory(p))
    else Ok(Put(s, p, content, now))
  }

  /** Reading a whole stream through `Location.getInputStream`. */
  function Read(s: Store, p: Path): (r: Result<seq<byte>>)
    ensures r.Ok? <==> p !in s.faulty && p in s.entries && s.entries[p].File?
    ensures r.Ok? ==> r.value == s.entries[p].content
  {
    if p in s.faulty then Err(Faulty(p))
    else if p !in s.entries then Err(NotFound(p))
    else if s.entries[p].Directory? then Err(IsADirectory(p))
    else Ok(s.entries[p].content)
  }

  /**
    `Location.renameTo` of a file. A rename the store refuses (the
    destination is taken, or a file blocks its directory) leaves the store
    as it was: `renameTo` then returns null rather than throwing.
  */
  function Rename(s: Store, src: Path, dst: Path): (r: Result<Store>)
    requires src in s.entries ==> s.entries[src].File?
    ensures r.Ok? <==> src !in s.faulty && dst !in s.faulty && src in s.entries
    ensures r.Ok? && dst !in s.entries && !BlockedByFile(s, dst) && src != dst ==>
      && dst in r.value.entries && r.value.entries[dst] == s.entries[src]
      && src !in r.value.entries
      && r.value.faulty == s.faulty
      && (forall q :: q in s.entries && q != src ==> q in r.value.entries && r.value.entries[q] == s.entries[q])
      && (forall q :: q in r.value.entries && q !in s.entries ==> q == dst || q in Ancestors(dst))
  {
    if src in s.faulty then Err(Faulty(src))
    else if dst in s.faulty then Err(Faulty(dst))
    else if src !in s.entries then Err(NotFound(src))
    else if dst in s.entries || BlockedByFile(s, dst) || src == dst then Ok(s)
    else
      var e := s.entries[src];
      var moved := Put(Store(s.entries - {src}, s.faulty), dst, e.content, e.lastModified);
      Ok(moved)
  }

  /** `Location.delete()`: removes one entry; a missing entry is not an error. */
  function Delete(s: Store, p: Path): (r: Result<Store>)
    ensures r.Err? <==> p in s.faulty || (p in s.entries && s.entries[p].Directory? && HasChild(s, p))
    ensures r.Ok? ==> r.value == Store(s.entries - {p}, s.faulty)
  {
    if p in s.faulty then Err(Faulty(p))
    else if p !in s.entries then Ok(s)
    else if s.entries[p].Directory? && HasChild(s, p) then Err(DirectoryNotEmpty(p))
    else Ok(Store(s.entries - {p}, s.faulty))
  }

  /** The present children of `dir`. */
  function ChildrenOf(s: Store, dir: Path): set<Path> {
    set x | x in s.entries && ChildOf(dir, x)
  }

  predicate HasChild(s: Store, dir: Path) {
    exists q :: q in s.entries && ChildOf(dir, q)
  }

  /** `Location.delete(true)`: removes `p` and everything below it. */
  function DeleteTree(s: Store, p: Path): (r: Result<Store>)
    ensures r.Err? <==> p in s.faulty
    ensures r.Ok? ==> r.value.faulty == s.faulty
    ensures r.Ok? ==> forall q :: q in r.value.entries <==> q in s.entries && !Under(p, q)
    ensures r.Ok? ==> forall q :: q in r.value.entries ==> r.value.entries[q] == s.entries[q]
  {
    if p in s.faulty then Err(Faulty(p))
    else Ok(Store(map q | q in s.entries && !Under(p, q) :: s.entries[q], s.faulty))
  }

  /** The entries of `order` that are present children of `dir`, in `order`'s order. */
  function ChildrenInOrder(s: Store, dir: Path, order: seq<Path>): (r: seq<Path>)
    ensures forall q :: q in r <==> q in order && q in s.entries && ChildOf(dir, q)
    ensures |r| <= |order|
  {
    if order == [] then []
    else
      var rest := ChildrenInOrder(s, dir, order[1..]);
      if order[0] in s.entries && ChildOf(dir, order[0]) then [order[0]] + rest else rest
  }

  /**
    `Location.list`. The order in which a store enumerates a directory is its
    own business; `order` stands for it, and a listing is the sub-sequence of
    `order` made of the directory's present children.
  */
  function List(s: Store, dir: Path, order: seq<Path>): (r: Result<seq<Path>>)
    ensures r.Ok? <==> dir !in s.faulty && dir in s.entries && s.entries[dir].Directory?
    ensures r.Ok? ==> r.value == ChildrenInOrder(s, dir, order)
  {
    if dir in s.faulty then Err(Faulty(dir))
    else if dir !in s.entries then Err(NotFound(dir))
    else if s.entries[dir].File? then Err(NotADirectory(dir))
    else Ok(ChildrenInOrder(s, dir, order))
  }

  /** `LocationStatus` of a present entry; a directory reports length 0. */
  function StatusOf(s: Store, p: Path): (st: LocationStatus)
    requires p in s.entries
    ensures st.location == p && st.lastModified == s.entries[p].lastModified
    ensures st.directory <==> s.entries[p].Directory?
    ensures st.length == (if s.entries[p].File? then |s.entries[p].content| else 0)
  {
    match s.entries[p]
    case File(t, content) => LocationStatus(p, false, t, |content|)
    case Directory(t) => LocationStatus(p, true, t, 0)
  }

  /** `Location.listStatus`: one status per listed child, in listing order. */
  function ListStatus(s: Store, dir: Path, order: seq<Path>): (r: Result<seq<LocationStatus>>)
    ensures r.Ok? <==> List(s, dir, order).Ok?
    ensures r.Ok? ==> |r.value| == |List(s, dir, order).value|
    ensures r.Ok? ==> forall i :: 0 <= i < |r.value| ==>
      var p := List(s, dir, order).value[i];
      p in s.entries && r.value[i] == StatusOf(s, p)
  {
    var children :- List(s, dir, order);
    Ok(seq(|children|, i requires 0 <= i < |children| => StatusOf(s, children[i])))
  }

  predicate NoDuplicates<T(==)>(xs: seq<T>) {
    forall i, j :: 0 <= i < j < |xs| ==> xs[i] != xs[j]
  }

  /** The store enumerates every entry it holds, each once. */
  predicate Enumerates(s: Store, order: seq<Path>) {
    && NoDuplicates(order)
    && forall p :: p in s.entries ==> p in order
  }

  lemma {:induction false} ChildrenInOrderNoDuplicates(s: Store, dir: Path, order: seq<Path>)
    requires NoDuplicates(order)
    ensures NoDuplicates(ChildrenInOrder(s, dir, order))
  {
    if order != [] {
      ChildrenInOrderNoDuplicates(s, dir, order[1..]);
    }
  }
}
