/**
 The cache of tenant connection pools: the sections `app/db/connection.go` runs under its
 mutex, as steps on the cache and on the log of closed pools.
 */
module OrgPools {
  import opened Options

  type Key = string
  type PoolId = nat

  datatype Entry = Entry(pool: PoolId, lastUsed: int, version: int)

  /** The cached entries, and the pools closed so far in the order of their closing. */
  datatype Store = Store(cache: map<Key, Entry>, closed: seq<PoolId>)

  // ---- Ownership ----

  function CachedPools(s: Store): set<PoolId> {
    set k | k in s.cache :: s.cache[k].pool
  }

  function ClosedPools(s: Store): set<PoolId> {
    set p | p in s.closed
  }

  /** The pools the store is responsible for. */
  function Owned(s: Store): set<PoolId> {
    CachedPools(s) + ClosedPools(s)
  }

  ghost predicate NoDuplicates(ps: seq<PoolId>) {
    forall i, j :: 0 <= i < j < |ps| ==> ps[i] != ps[j]
  }

  /** No pool is cached twice, closed twice, or both cached and closed. */
  ghost predicate Consistent(s: Store) {
    && (forall k, l :: k in s.cache && l in s.cache && s.cache[k].pool == s.cache[l].pool ==> k == l)
    && NoDuplicates(s.closed)
    && CachedPools(s) !! ClosedPools(s)
  }

  /** Some entries are dropped and exactly their pools are closed, each once. */
  ghost predicate Dropped(s: Store, t: Store) {
    && (forall k :: k in t.cache ==> k in s.cache && t.cache[k] == s.cache[k])
    && s.closed <= t.closed
    && var added := t.closed[|s.closed|..];
       && NoDuplicates(added)
       && forall p :: p in added <==> exists k :: k in s.cache && k !in t.cache && s.cache[k].pool == p
  }

  lemma DroppedRefl(s: Store)
    ensures Dropped(s, s)
  {
  }

  /** Closing the entry of one more key. */
  function Close(s: Store, key: Key): Store
    requires key in s.cache
  {
    Store(s.cache - {key}, s.closed + [s.cache[key].pool])
  }

  lemma CloseMore(s: Store, t: Store, key: Key)
    requires Consistent(s) && Dropped(s, t) && key in t.cache
    ensures Dropped(s, Close(t, key)) && |Close(t, key).cache| == |t.cache| - 1
  {
    var u := Close(t, key);
    var before, after := t.closed[|s.closed|..], u.closed[|s.closed|..];
    assert after == before + [t.cache[key].pool];
    assert t.cache[key].pool !in before;
    assert forall i :: 0 <= i < |before| ==> after[i] == before[i] && before[i] in before;
    assert u.cache.Keys == t.cache.Keys - {key};
    forall p ensures p in after <==> exists k :: k in s.cache && k !in u.cache && s.cache[k].pool == p {
      if p in before {
        var k :| k in s.cache && k !in t.cache && s.cache[k].pool == p;
        assert k !in u.cache;
      }
      if p == t.cache[key].pool {
        assert key in s.cache && key !in u.cache && s.cache[key].pool == p;
      }
    }
  }

  /** Dropping entries loses no pool and closes none twice. */
  lemma DroppedKeeps(s: Store, t: Store)
    requires Consistent(s) && Dropped(s, t)
    ensures Consistent(t) && Owned(t) == Owned(s)
  {
    var added := t.closed[|s.closed|..];
    assert t.closed == s.closed + added;
    forall p | p in added ensures p in CachedPools(s) && p !in ClosedPools(s) && p !in CachedPools(t) {
      var k :| k in s.cache && k !in t.cache && s.cache[k].pool == p;
    }
    forall p | p in CachedPools(s) ensures p in Owned(t) {
      var k :| k in s.cache && s.cache[k].pool == p;
      if k in t.cache {
        assert t.cache[k].pool == p;
      } else {
        assert p in added;
      }
    }
    forall p | p in ClosedPools(t) ensures p !in CachedPools(t) {
      assert p in s.closed || p in added;
      if p in s.closed { assert p in ClosedPools(s) && p !in CachedPools(s); }
    }
    forall i, j | 0 <= i < j < |t.closed| ensures t.closed[i] != t.closed[j] {
      if i < |s.closed| && |s.closed| <= j {
        assert t.closed[j] in added;
        assert t.closed[i] in s.closed;
      } else if |s.closed| <= i {
        assert t.closed[i] == added[i - |s.closed|] && t.closed[j] == added[j - |s.closed|];
      }
    }
  }

  // ---- The sections ----

  /** The first section of ensureOrgReadOnlyPool: a hit, or a stale pool closed, or nothing. */
  function Lookup(s: Store, key: Key, version: int, now: int): (Option<PoolId>, Store) {
    if key !in s.cache then (None, s)
    else if s.cache[key].version == version then
      (Some(s.cache[key].pool), s.(cache := s.cache[key := s.cache[key].(lastUsed := now)]))
    else (None, Close(s, key))
  }

  /** Room for one more: the least recently used entries go, and only as many as needed. */
  ghost predicate Reserved(s: Store, t: Store, maxPools: int) {
    && Dropped(s, t)
    && |t.cache| < maxPools
    && (|s.cache| < maxPools ==> t == s)
    && (|s.cache| >= maxPools ==> |t.cache| == maxPools - 1)
    && forall k, l :: k in s.cache && k !in t.cache && l in t.cache ==> s.cache[k].lastUsed <= t.cache[l].lastUsed
  }

  function DropStale(s: Store, key: Key): Store {
    if key in s.cache then Close(s, key) else s
  }

  /** The second section: the opened pool is closed again, refused, or cached. */
  ghost predicate Inserted(s: Store, key: Key, version: int, pool: PoolId, now: int, maxPools: int,
                           result: Option<PoolId>, t: Store)
  {
    if key in s.cache && s.cache[key].version == version then
      && result == Some(s.cache[key].pool)
      && t == Store(s.cache[key := s.cache[key].(lastUsed := now)], s.closed + [pool])
    else if maxPools <= 0 then
      result == None && t == Store(DropStale(s, key).cache, DropStale(s, key).closed + [pool])
    else
      && result == Some(pool)
      && exists room ::
           Reserved(DropStale(s, key), room, maxPools)
           && t == Store(room.cache[key := Entry(pool, now, version)], room.closed)
  }

  /** evictOnce: an entry goes when it was last used no later than the cutoff and its pool is idle. */
  ghost predicate Evicted(s: Store, cutoff: int, busy: set<PoolId>, t: Store) {
    && Dropped(s, t)
    && forall k :: k in s.cache ==> (k in t.cache <==> s.cache[k].lastUsed > cutoff || s.cache[k].pool in busy)
  }

  /** The idle pools last used at the cutoff or before are closed, and only those. */
  lemma EvictedIs(s: Store, cutoff: int, busy: set<PoolId>, t: Store, k: Key)
    requires Evicted(s, cutoff, busy, t) && k in s.cache
    ensures k !in t.cache <==> s.cache[k].pool !in busy && s.cache[k].lastUsed <= cutoff
  {
  }

  /**
   The outcomes of an insertion: refused only where no pool may be cached and none of the version is;
   else the key's entry is the pool returned, used now, which is the cached one where there was one.
   Other keys lose their entries only where there is no room for one more, and then just one does.
   */
  lemma InsertOutcome(s: Store, key: Key, version: int, pool: PoolId, now: int, maxPools: int,
                      result: Option<PoolId>, t: Store)
    requires Consistent(s) && Inserted(s, key, version, pool, now, maxPools, result, t)
    requires |s.cache| <= if maxPools > 0 then maxPools else 0
    ensures var cached := key in s.cache && s.cache[key].version == version;
            && (result.None? <==> maxPools <= 0 && !cached)
            && (result.Some? ==> key in t.cache && t.cache[key] == Entry(result.value, now, version))
            && (result.Some? ==> result.value == if cached then s.cache[key].pool else pool)
            && (cached || key in s.cache || |s.cache| < maxPools ==>
                  forall k :: k in s.cache && k != key ==> k in t.cache && t.cache[k] == s.cache[k])
            && (result.Some? && !cached && key !in s.cache && |s.cache| == maxPools ==> |t.cache| == maxPools)
  {
    hide Consistent;
    if key in s.cache {
      StaleGone(s, key);
    }
    if result.Some? && !(key in s.cache && s.cache[key].version == version) {
      var room :| Reserved(DropStale(s, key), room, maxPools)
        && t == Store(room.cache[key := Entry(pool, now, version)], room.closed);
      if key !in s.cache && |s.cache| == maxPools {
        assert key !in room.cache;
        assert t.cache.Keys == room.cache.Keys + {key};
      }
    }
  }

  lemma StaleGone(s: Store, key: Key)
    requires key in s.cache
    ensures |DropStale(s, key).cache| == |s.cache| - 1
  {
    assert DropStale(s, key).cache.Keys == s.cache.Keys - {key};
  }

  lemma DropStaleDrops(s: Store, key: Key)
    requires Consistent(s)
    ensures Dropped(s, DropStale(s, key)) && |DropStale(s, key).cache| <= |s.cache|
  {
    DroppedRefl(s);
    if key in s.cache { CloseMore(s, s, key); }
  }

  lemma LookupKeeps(s: Store, key: Key, version: int, now: int)
    requires Consistent(s)
    ensures var (hit, t) := Lookup(s, key, version, now);
            && Consistent(t) && Owned(t) == Owned(s) && |t.cache| <= |s.cache|
            && (hit.Some? ==> key in s.cache && s.cache[key].version == version && s.cache[key].pool == hit.value)
            && (hit.Some? ==> t == s.(cache := s.cache[key := Entry(hit.value, now, version)]))
            && (hit.None? ==> key !in t.cache && forall k :: k in s.cache && k != key ==> k in t.cache)
            && forall k :: k in t.cache ==>
                 && k in s.cache && t.cache[k].pool == s.cache[k].pool && t.cache[k].version == s.cache[k].version
                 && t.cache[k].lastUsed == if hit.Some? && k == key then now else s.cache[k].lastUsed
  {
    if key in s.cache {
      if s.cache[key].version == version {
        Touch(s, key, now);
      } else {
        DropStaleDrops(s, key);
        DroppedKeeps(s, Close(s, key));
      }
    }
  }

  lemma Touch(s: Store, key: Key, now: int)
    requires Consistent(s) && key in s.cache
    ensures var t := s.(cache := s.cache[key := s.cache[key].(lastUsed := now)]);
            Consistent(t) && CachedPools(t) == CachedPools(s) && |t.cache| == |s.cache|
  {
    var t := s.(cache := s.cache[key := s.cache[key].(lastUsed := now)]);
    assert t.cache.Keys == s.cache.Keys;
    forall p | p in CachedPools(s) ensures p in CachedPools(t) {
      var k :| k in s.cache && s.cache[k].pool == p;
      assert t.cache[k].pool == p;
    }
    assert |t.cache.Keys| == |s.cache.Keys|;
  }

  lemma CloseLoose(s: Store, pool: PoolId)
    requires Consistent(s) && pool !in Owned(s)
    ensures var t := Store(s.cache, s.closed + [pool]); Consistent(t) && Owned(t) == Owned(s) + {pool}
  {
    var t := Store(s.cache, s.closed + [pool]);
    assert CachedPools(t) == CachedPools(s);
    assert ClosedPools(t) == ClosedPools(s) + {pool};
    assert forall p :: p in s.closed ==> p in ClosedPools(s);
  }

  lemma AddEntry(s: Store, key: Key, e: Entry)
    requires Consistent(s) && key !in s.cache && e.pool !in Owned(s)
    ensures var t := Store(s.cache[key := e], s.closed);
            Consistent(t) && Owned(t) == Owned(s) + {e.pool} && |t.cache| == |s.cache| + 1
  {
    var t := Store(s.cache[key := e], s.closed);
    CachedWith(s, key, e);
    assert t.cache.Keys == s.cache.Keys + {key};
    assert |t.cache.Keys| == |s.cache.Keys| + 1;
    forall k | k in s.cache ensures s.cache[k].pool != e.pool {
      assert s.cache[k].pool in CachedPools(s);
    }
  }

  lemma CachedWith(s: Store, key: Key, e: Entry)
    requires key !in s.cache
    ensures CachedPools(Store(s.cache[key := e], s.closed)) == CachedPools(s) + {e.pool}
  {
    var t := Store(s.cache[key := e], s.closed);
    assert t.cache[key].pool == e.pool;
    forall p | p in CachedPools(s) ensures p in CachedPools(t) {
      var k :| k in s.cache && s.cache[k].pool == p;
      assert t.cache[k].pool == p;
    }
  }

  /** What the second section does with the pool it was given. */
  lemma InsertKeeps(s: Store, key: Key, version: int, pool: PoolId, now: int, maxPools: int,
                    result: Option<PoolId>, t: Store)
    requires Consistent(s) && pool !in Owned(s) && Inserted(s, key, version, pool, now, maxPools, result, t)
    ensures Consistent(t) && Owned(t) == Owned(s) + {pool}
    ensures maxPools > 0 && |s.cache| <= maxPools ==> |t.cache| <= maxPools
    ensures maxPools <= 0 ==> |t.cache| <= |s.cache|
    ensures result.Some? && result.value != pool ==>
              key in s.cache && s.cache[key].version == version && s.cache[key].pool == result.value
    ensures forall k :: k in t.cache ==>
              || (k in s.cache && t.cache[k].pool == s.cache[k].pool && t.cache[k].version == s.cache[k].version)
              || (k == key && t.cache[k].pool == pool && t.cache[k].version == version)
  {
    hide Owned, Consistent, Reserved, Dropped;
    if key in s.cache && s.cache[key].version == version {
      TouchKeeps(s, key, now);
      CloseLoose(s.(cache := s.cache[key := s.cache[key].(lastUsed := now)]), pool);
    } else {
      var stale := DropStale(s, key);
      StaleKeeps(s, key);
      if maxPools <= 0 {
        CloseLoose(stale, pool);
      } else {
        var room :| Reserved(stale, room, maxPools)
            && t == Store(room.cache[key := Entry(pool, now, version)], room.closed);
        RoomKeeps(stale, room, maxPools);
        AddEntry(room, key, Entry(pool, now, version));
      }
    }
  }

  lemma TouchKeeps(s: Store, key: Key, now: int)
    requires Consistent(s) && key in s.cache
    ensures var t := s.(cache := s.cache[key := s.cache[key].(lastUsed := now)]);
            Consistent(t) && Owned(t) == Owned(s) && |t.cache| == |s.cache|
  {
    Touch(s, key, now);
  }

  lemma StaleKeeps(s: Store, key: Key)
    requires Consistent(s)
    ensures var t := DropStale(s, key);
            && Consistent(t) && Owned(t) == Owned(s) && |t.cache| <= |s.cache| && key !in t.cache
            && forall k :: k in t.cache ==> k in s.cache && t.cache[k] == s.cache[k]
  {
    hide Owned, Consistent;
    DropStaleDrops(s, key);
    DroppedKeeps(s, DropStale(s, key));
  }

  lemma RoomKeeps(s: Store, t: Store, maxPools: int)
    requires Consistent(s) && Reserved(s, t, maxPools)
    ensures Consistent(t) && Owned(t) == Owned(s) && |t.cache| < maxPools
    ensures forall k :: k in t.cache ==> k in s.cache && t.cache[k] == s.cache[k]
  {
    hide Owned, Consistent;
    DroppedKeeps(s, t);
  }

  // ---- The connection budget ----

  datatype PoolConfig = PoolConfig(connections: nat, maxConnections: int, globalMaxConns: int)

  function SourceCount(cfg: PoolConfig): nat {
    if cfg.connections == 0 then 1 else cfg.connections
  }

  /** enforceGlobalConnectionBudget: whether the startup check passes. */
  predicate StartupCheckPasses(cfg: PoolConfig) {
    cfg.globalMaxConns <= 0 || cfg.maxConnections <= 0
        || cfg.maxConnections * (SourceCount(cfg) + 1) <= cfg.globalMaxConns
  }

  /** maxOrgPoolsFromConfig. */
  function MaxOrgPools(cfg: PoolConfig): (int, int) {
    var perPool := if cfg.maxConnections <= 0 then 5 else cfg.maxConnections;
    var staticBudget := perPool * (SourceCount(cfg) + 1);
    if cfg.globalMaxConns <= 0 then (32, staticBudget)
    else
      var remaining := cfg.globalMaxConns - staticBudget;
      if remaining < perPool then (0, staticBudget) else (remaining / perPool, staticBudget)
  }

  /**
   However many tenant pools are cached within the limit, the global connection budget holds; and
   no higher limit would do.
   */
  lemma BudgetHolds(cfg: PoolConfig, cached: nat)
    requires cfg.maxConnections > 0 && cfg.globalMaxConns > 0 && StartupCheckPasses(cfg)
    requires cached <= MaxOrgPools(cfg).0
    ensures MaxOrgPools(cfg).1 + cfg.maxConnections * cached <= cfg.globalMaxConns
    ensures MaxOrgPools(cfg).1 + cfg.maxConnections * (MaxOrgPools(cfg).0 + 1) > cfg.globalMaxConns
  {
    var per, most := cfg.maxConnections, MaxOrgPools(cfg).0;
    var remaining := cfg.globalMaxConns - MaxOrgPools(cfg).1;
    ProductMonotone(per, cached, most);
    if remaining >= per {
      assert most == remaining / per;
      assert remaining == most * per + remaining % per;
      assert per * (most + 1) == most * per + per;
    }
  }

  /** Without a global limit 32 tenant pools may be cached; a pool without a configured size counts 5 connections. */
  lemma UnlimitedPools(cfg: PoolConfig)
    requires cfg.globalMaxConns <= 0
    ensures MaxOrgPools(cfg).0 == 32
    ensures cfg.maxConnections <= 0 ==>
              MaxOrgPools(cfg).1 == 5 * (if cfg.connections == 0 then 2 else cfg.connections + 1)
  {
  }

  /** With one, the limit is the most pools of that size that fit beside the static pools, and never negative. */
  lemma LimitedPools(cfg: PoolConfig)
    requires cfg.globalMaxConns > 0
    ensures var size := if cfg.maxConnections <= 0 then 5 else cfg.maxConnections;
            var left := cfg.globalMaxConns - size * (if cfg.connections == 0 then 2 else cfg.connections + 1);
            var most := MaxOrgPools(cfg).0;
            && most >= 0 && (left < size ==> most == 0)
            && (left >= size ==> size * most <= left < size * (most + 1))
  {
    var size := if cfg.maxConnections <= 0 then 5 else cfg.maxConnections;
    var left := cfg.globalMaxConns - size * (if cfg.connections == 0 then 2 else cfg.connections + 1);
    if left >= size {
      assert left == left / size * size + left % size;
      assert size * (left / size + 1) == left / size * size + size;
    }
  }

  /** The startup check passes exactly when the static pools fit. */
  lemma StartupCheckFits(cfg: PoolConfig)
    requires cfg.globalMaxConns > 0 && cfg.maxConnections > 0
    ensures StartupCheckPasses(cfg) <==> MaxOrgPools(cfg).1 <= cfg.globalMaxConns
  {
  }

  lemma ProductMonotone(per: int, a: int, b: int)
    requires per > 0 && a <= b
    ensures per * a <= per * b
  {
  }

  // ---- The object ----

  /** connection.go, Pools: the tenant cache and its eviction counter. */
  class Pools {
    var orgLazy: map<Key, Entry>
    var closed: seq<PoolId>
    var orgPoolEvictions: nat
    const maxOrgPools: int

    ghost function State(): Store
      reads this
    {
      Store(orgLazy, closed)
    }

    constructor (maxOrgPools: int)
      ensures this.maxOrgPools == maxOrgPools && State() == Store(map[], []) && orgPoolEvictions == 0
    {
      this.maxOrgPools := maxOrgPools;
      orgLazy, closed, orgPoolEvictions := map[], [], 0;
    }

    method CloseEntry(key: Key)
      requires key in orgLazy
      modifies this
      ensures State() == Close(old(State()), key) && orgPoolEvictions == old(orgPoolEvictions)
    {
      closed := closed + [orgLazy[key].pool];
      orgLazy := orgLazy - {key};
    }

    /** The section that looks a pool up. */
    method LookupSection(key: Key, version: int, now: int) returns (hit: Option<PoolId>)
      modifies this
      ensures (hit, State()) == Lookup(old(State()), key, version, now)
      ensures orgPoolEvictions == old(orgPoolEvictions)
    {
      hit := None;
      if key in orgLazy {
        var entry := orgLazy[key];
        if entry.version == version {
          orgLazy := orgLazy[key := entry.(lastUsed := now)];
          return Some(entry.pool);
        }
        CloseEntry(key);
      }
    }

    /** The inner loop of reserveOrgPoolLocked: a key with the least lastUsed, whatever the map order. */
    method OldestKey() returns (oldest: Key)
      requires orgLazy != map[]
      ensures oldest in orgLazy && forall k :: k in orgLazy ==> orgLazy[oldest].lastUsed <= orgLazy[k].lastUsed
    {
      var rest := orgLazy.Keys;
      assert orgLazy.Keys == {} ==> orgLazy == map[];
      oldest :| oldest in rest;
      rest := rest - {oldest};
      while rest != {}
        invariant oldest in orgLazy && rest <= orgLazy.Keys
        invariant forall k :: k in orgLazy && k !in rest ==> orgLazy[oldest].lastUsed <= orgLazy[k].lastUsed
        decreases rest
      {
        var key :| key in rest;
        if orgLazy[key].lastUsed < orgLazy[oldest].lastUsed {
          oldest := key;
        }
        rest := rest - {key};
      }
    }

    /** reserveOrgPoolLocked. */
    method ReserveOrgPoolLocked() returns (ok: bool)
      requires Consistent(State())
      modifies this
      ensures ok <==> maxOrgPools > 0
      ensures ok ==> Reserved(old(State()), State(), maxOrgPools)
      ensures ok ==> orgPoolEvictions == old(orgPoolEvictions) + (|old(orgLazy)| - |orgLazy|)
      ensures !ok ==> State() == old(State()) && orgPoolEvictions == old(orgPoolEvictions)
    {
      hide Consistent;
      if maxOrgPools <= 0 {
        return false;
      }
      ghost var before := State();
      DroppedRefl(before);
      while |orgLazy| >= maxOrgPools
        invariant Dropped(before, State()) && |orgLazy| <= |before.cache|
        invariant |before.cache| < maxOrgPools ==> State() == before
        invariant |before.cache| >= maxOrgPools ==> |orgLazy| >= maxOrgPools - 1
        invariant orgPoolEvictions == old(orgPoolEvictions) + (|before.cache| - |orgLazy|)
        invariant forall k, l :: k in before.cache && k !in orgLazy && l in orgLazy ==>
                    before.cache[k].lastUsed <= orgLazy[l].lastUsed
        decreases |orgLazy|
      {
        var oldest := OldestKey();
        CloseMore(before, State(), oldest);
        CloseEntry(oldest);
        orgPoolEvictions := orgPoolEvictions + 1;
      }
      return true;
    }

    /** The section that inserts an opened pool. */
    method InsertSection(key: Key, version: int, pool: PoolId, now: int) returns (result: Option<PoolId>)
      requires Consistent(State())
      modifies this
      ensures Inserted(old(State()), key, version, pool, now, maxOrgPools, result, State())
    {
      if key in orgLazy && orgLazy[key].version == version {
        closed := closed + [pool];
        orgLazy := orgLazy[key := orgLazy[key].(lastUsed := now)];
        return Some(orgLazy[key].pool);
      }
      ghost var before := State();
      if key in orgLazy {
        CloseEntry(key);
      }
      assert State() == DropStale(before, key);
      DropStaleDrops(before, key);
      DroppedKeeps(before, State());
      var ok := ReserveOrgPoolLocked();
      if !ok {
        closed := closed + [pool];
        return None;
      }
      ghost var room := State();
      orgLazy := orgLazy[key := Entry(pool, now, version)];
      assert Reserved(DropStale(before, key), room, maxOrgPools);
      return Some(pool);
    }

    /** InvalidateOrgReadOnlyPool. */
    method Invalidate(key: Key)
      modifies this
      ensures State() == DropStale(old(State()), key)
    {
      if key in orgLazy {
        CloseEntry(key);
      }
    }

    /** The tenant loop of evictOnce, over the keys in any order. */
    method EvictOnce(cutoff: int, busy: set<PoolId>)
      requires Consistent(State())
      modifies this
      ensures Evicted(old(State()), cutoff, busy, State())
    {
      ghost var before := State();
      DroppedRefl(before);
      var rest := orgLazy.Keys;
      while rest != {}
        invariant Dropped(before, State()) && rest <= before.cache.Keys
        invariant forall k :: k in rest ==> k in orgLazy
        invariant forall k :: k in before.cache && k !in rest ==>
                    (k in orgLazy <==> before.cache[k].lastUsed > cutoff || before.cache[k].pool in busy)
        decreases rest
      {
        var id :| id in rest;
        rest := rest - {id};
        if orgLazy[id].lastUsed > cutoff {
          continue;
        }
        if orgLazy[id].pool in busy {
          continue;
        }
        CloseMore(before, State(), id);
        CloseEntry(id);
      }
    }
  }
}
