/**
  One run of the cache's periodic cleanup task (the body of the
  `TimerTask` scheduled by `startUp`). Phase A heartbeats the session's
  liveness marker and reaps every sibling session whose marker is missing
  or stale; phase B trims the session's own directory to `maxEntries`
  entries, oldest first. Each phase has its own catch-all: a failure ends
  that phase, never the other one.
*/
module Cleanup {
  import opened FileStore
  import opened StatusSort
  import opened BundleCache

  const Two63: int := 0x8000_0000_0000_0000
  const Two31: int := 0x8000_0000

  /** Java `long` arithmetic: the value modulo 2^64 in the signed range. */
  function Wrap64(x: int): (r: int64)
    ensures (r - x) % (2 * Two63) == 0
    ensures -Two63 <= x < Two63 ==> r == x
  {
    (x + Two63) % (2 * Two63) - Two63
  }

  /** Java `int` arithmetic: the value modulo 2^32 in the signed range. */
  function Wrap32(x: int): (r: int32)
    ensures (r - x) % (2 * Two31) == 0
    ensures -Two31 <= x < Two31 ==> r == x
  {
    (x + Two31) % (2 * Two31) - Two31
  }

  /** An `int` difference between 2^31 and 2^32 wraps to a negative value. */
  lemma Wrap32High(x: int)
    requires Two31 <= x < 2 * Two31
    ensures Wrap32(x) == x - 2 * Two31 < 0
  {
    assert 2 * Two31 <= x + Two31 < 3 * Two31;
    assert (x + Two31) % (2 * Two31) == x + Two31 - 2 * Two31;
  }

  /** `now - cleanupPeriodMs * 4`, in `long` arithmetic. */
  function ExpireTime(now: int64, period: int64): (t: int64)
    // for a non-negative clock and a period that does not overflow, four periods ago
    ensures 0 <= now && 0 <= period < Two63 / 4 ==> t == now - 4 * period
  {
    Wrap64(now - Wrap64(period * 4))
  }

  /** For every realistic clock and period the expiry time is exactly four periods ago. */
  lemma ExpireTimeIsFourPeriodsAgo(now: int64, period: int64)
    requires 0 <= period < Two63 / 4
    requires 0 <= now
    ensures ExpireTime(now, period) == now - 4 * period
  {
  }

  /** The liveness marker of a sibling session directory. */
  function ActivePath(sibling: Path): Path {
    Append(sibling, ActiveFileName)
  }

  /**
    Phase A's verdict on one listed sibling: it is not this session, its
    marker can be inspected and its directory deleted without an
    IOException, and the marker is missing or not newer than `expire`.
  */
  predicate Reaped(c: Config, s: Store, sibling: Path, expire: int64) {
    var active := ActivePath(sibling);
    && Name(sibling) != c.sessionId
    && sibling !in s.faulty
    && active !in s.faulty
    && (active !in s.entries || s.entries[active].lastModified <= expire)
  }

  /** `location.delete(true)`, with an IOException caught and logged. */
  function DeleteTreeOrKeep(s: Store, p: Path): (r: Store)
    ensures p !in s.faulty ==> r == DeleteTree(s, p).value
    ensures p in s.faulty ==> r == s
  {
    match DeleteTree(s, p)
    case Err(_) => s
    case Ok(s') => s'
  }

  /** One iteration of the reaping loop, including its per-sibling catch. */
  function ReapOne(c: Config, s: Store, sibling: Path, expire: int64): (r: Store)
    ensures Reaped(c, s, sibling, expire) ==> r == DeleteTree(s, sibling).value
    ensures !Reaped(c, s, sibling, expire) ==> r == s
  {
    if Name(sibling) == c.sessionId then s
    else
      var active := ActivePath(sibling);
      match Exists(s, active)
      case Err(_) => s
      case Ok(present) =>
        if !present then DeleteTreeOrKeep(s, sibling)
        else
          match LastModified(s, active)
          case Err(_) => s
          case Ok(t) => if t <= expire then DeleteTreeOrKeep(s, sibling) else s
  }

  /** The reaping loop over the listing of the cache directory. */
  function ReapAll(c: Config, s: Store, siblings: seq<Path>, expire: int64): (r: Store)
    // reaping only removes entries: nothing is added, changed or made faulty
    ensures r.faulty == s.faulty
    ensures forall p :: p in r.entries ==> p in s.entries && r.entries[p] == s.entries[p]
    decreases |siblings|
  {
    if siblings == [] then s
    else ReapAll(c, ReapOne(c, s, siblings[0], expire), siblings[1..], expire)
  }

  /**
    Phase A: heartbeat the own marker, list the cache directory, reap. A
    failing heartbeat or listing ends the phase (the outer catch).
  */
  function ReapPhase(c: Config, s: Store, now: int64, order: seq<Path>): (r: Store)
    ensures r.faulty == s.faulty
    // phase A adds nothing and changes nothing but the own marker's time
    ensures forall p :: p in r.entries ==> p in s.entries
    ensures forall p :: p in r.entries && p != MarkerPath(c) ==> r.entries[p] == s.entries[p]
    // a marker that survives and can be stamped carries `now`
    ensures MarkerPath(c) in r.entries && MarkerPath(c) !in s.faulty ==>
      r.entries[MarkerPath(c)].lastModified == now
    // a heartbeat that throws ends the phase before anything changes
    ensures SetLastModified(s, MarkerPath(c), now).Err? ==> r == s
    // a listing of the cache directory that throws ends the phase after the heartbeat
    ensures SetLastModified(s, MarkerPath(c), now).Ok? &&
            List(SetLastModified(s, MarkerPath(c), now).value, c.cacheDir, order).Err? ==>
      r == SetLastModified(s, MarkerPath(c), now).value
  {
    match SetLastModified(s, MarkerPath(c), now)
    case Err(_) => s
    case Ok(s1) =>
      match List(s1, c.cacheDir, order)
      case Err(_) => s1
      case Ok(siblings) => ReapAll(c, s1, siblings, ExpireTime(now, c.cleanupPeriodMs))
  }

  /** The deletion loop of phase B: the first throwing delete ends the loop. */
  function DeleteEach(s: Store, victims: seq<LocationStatus>): (r: Store)
    // deleting only removes entries: nothing is added, changed or made faulty
    ensures r.faulty == s.faulty
    ensures forall p :: p in r.entries ==> p in s.entries && r.entries[p] == s.entries[p]
    decreases |victims|
  {
    if victims == [] then s
    else
      match Delete(s, victims[0].location)
      case Err(_) => s
      case Ok(s') => DeleteEach(s', victims[1..])
  }

  /**
    The statuses phase B deletes from a listing of the session directory:
    none while the listing is within the limit, the `size - maxEntries`
    oldest otherwise. An index that `subList` rejects throws, which ends the
    phase before anything is deleted: no victims either.
  */
  function Victims(c: Config, statuses: seq<LocationStatus>): (r: seq<LocationStatus>)
    ensures forall v :: v in r ==> v in statuses
    ensures |r| <= |statuses|
    // within the limit nothing is a victim
    ensures |statuses| <= c.maxEntries ==> r == []
    // over a non-negative limit, the `size - maxEntries` oldest statuses
    ensures 0 <= c.maxEntries < |statuses| < Two31 ==>
      r == SortByLastModified(statuses)[..|statuses| - c.maxEntries]
  {
    if |statuses| <= c.maxEntries then []
    else
      var sorted := SortByLastModified(statuses);
      var toIndex := Wrap32(|statuses| - c.maxEntries);
      if toIndex < 0 || toIndex > |sorted| then [] else sorted[..toIndex]
  }

  /**
    Phase B: list the own session directory (marker included) and delete
    the victims in ascending last-modified order. A failing listing ends
    the phase.
  */
  function TrimPhase(c: Config, s: Store, order: seq<Path>): (r: Store)
    ensures r.faulty == s.faulty
    ensures forall p :: p in r.entries ==> p in s.entries && r.entries[p] == s.entries[p]
    // a listing that fails, or stays within the limit, leaves the store alone
    ensures ListStatus(s, SessionDir(c), order).Err? ==> r == s
    ensures (ListStatus(s, SessionDir(c), order).Ok? &&
             |ListStatus(s, SessionDir(c), order).value| <= c.maxEntries) ==> r == s
  {
    match ListStatus(s, SessionDir(c), order)
    case Err(_) => s
    case Ok(statuses) => TrimListing(c, s, statuses)
  }

  /** Phase B once the session directory has been listed as `statuses`. */
  function TrimListing(c: Config, s: Store, statuses: seq<LocationStatus>): Store {
    DeleteEach(s, Victims(c, statuses))
  }

  /** One run of the cleanup task at time `now`. */
  function CleanupCycle(c: Config, s: Store, now: int64, order: seq<Path>): (r: Store)
    // a run only removes entries and re-stamps the own marker
    ensures r.faulty == s.faulty
    ensures forall p :: p in r.entries ==> p in s.entries
    ensures forall p :: p in r.entries && p != MarkerPath(c) ==> r.entries[p] == s.entries[p]
    ensures MarkerPath(c) in r.entries && MarkerPath(c) !in s.faulty ==>
      r.entries[MarkerPath(c)].lastModified == now
  {
    TrimPhase(c, ReapPhase(c, s, now, order), order)
  }
}
