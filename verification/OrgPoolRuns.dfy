/**
 The tenant pool cache under concurrency: callers look up, open a pool without holding the lock,
 and insert, interleaved in any order with invalidation and idle eviction.
 */
module OrgPoolRuns {
  import opened Options
  import opened OrgPools

  /** One call of ensureOrgReadOnlyPool, after it resolved a version for its key. */
  datatype Call =
    | Resolved(key: Key, version: int)
    | Opening(key: Key, version: int)
    | Opened(key: Key, version: int, pool: PoolId)
    | Returned(key: Key, version: int, pool: PoolId)
    | Failed

  /** `built` remembers for which key and version each pool ever opened was built. */
  datatype State = State(store: Store, calls: map<nat, Call>, built: map<PoolId, (Key, int)>)

  predicate Init(s: State) {
    s == State(Store(map[], []), map[], map[])
  }

  datatype Event =
    | Resolve(call: nat, key: Key, version: int)
    | LookUp(call: nat, now: int)
    | OpenFails(call: nat)
    | OpenSucceeds(call: nat, pool: PoolId)
    | Insert(call: nat, now: int, result: Option<PoolId>)
    | InvalidateKey(key: Key)
    | EvictIdle(cutoff: int, busy: set<PoolId>)

  ghost predicate Step(s: State, e: Event, t: State, maxPools: int) {
    match e
    case Resolve(c, key, version) => c !in s.calls && t == s.(calls := s.calls[c := Resolved(key, version)])
    case LookUp(c, now) =>
      && c in s.calls && s.calls[c].Resolved?
      && var (key, version) := (s.calls[c].key, s.calls[c].version);
         var (hit, store) := Lookup(s.store, key, version, now);
         var next := if hit.Some? then Returned(key, version, hit.value) else Opening(key, version);
         t == State(store, s.calls[c := next], s.built)
    case OpenFails(c) => c in s.calls && s.calls[c].Opening? && t == s.(calls := s.calls[c := Failed])
    case OpenSucceeds(c, pool) =>
      && c in s.calls && s.calls[c].Opening? && pool !in s.built
      && t == State(s.store, s.calls[c := Opened(s.calls[c].key, s.calls[c].version, pool)],
                    s.built[pool := (s.calls[c].key, s.calls[c].version)])
    case Insert(c, now, result) =>
      && c in s.calls && s.calls[c].Opened?
      && var call := s.calls[c];
         && Inserted(s.store, call.key, call.version, call.pool, now, maxPools, result, t.store)
         && t.calls == s.calls[c := if result.Some? then Returned(call.key, call.version, result.value) else Failed]
         && t.built == s.built
    case InvalidateKey(key) => t == s.(store := DropStale(s.store, key))
    case EvictIdle(cutoff, busy) => Evicted(s.store, cutoff, busy, t.store) && t.calls == s.calls && t.built == s.built
  }

  /** A pool an unfinished call holds after opening it. */
  ghost predicate InFlight(s: State, pool: PoolId) {
    exists c :: c in s.calls && s.calls[c].Opened? && s.calls[c].pool == pool
  }

  /** Every pool ever opened is cached, held by exactly one opener, or closed, and in one of these only. */
  ghost predicate OneOwner(s: State) {
    && Consistent(s.store)
    && (forall p :: p in s.built <==> p in Owned(s.store) || InFlight(s, p))
    && (forall c :: c in s.calls && s.calls[c].Opened? ==> s.calls[c].pool !in Owned(s.store))
    && (forall c, d | c in s.calls && d in s.calls && s.calls[c].Opened? && s.calls[d].Opened? ::
          s.calls[c].pool == s.calls[d].pool ==> c == d)
  }

  /** Cached, held and returned pools were built for the key and version they stand under. */
  ghost predicate RightVersion(s: State) {
    && (forall k :: k in s.store.cache ==>
          s.store.cache[k].pool in s.built && s.built[s.store.cache[k].pool] == (k, s.store.cache[k].version))
    && (forall c :: c in s.calls && (s.calls[c].Opened? || s.calls[c].Returned?) ==>
          s.calls[c].pool in s.built && s.built[s.calls[c].pool] == (s.calls[c].key, s.calls[c].version))
  }

  ghost predicate WithinLimit(s: State, maxPools: int) {
    |s.store.cache| <= if maxPools > 0 then maxPools else 0
  }

  ghost predicate Inv(s: State, maxPools: int) {
    OneOwner(s) && RightVersion(s) && WithinLimit(s, maxPools)
  }

  // ---- Each step keeps the invariant ----

  lemma SubsetCache(s: Store, t: Store)
    requires Dropped(s, t)
    ensures |t.cache| <= |s.cache|
  {
    assert t.cache.Keys <= s.cache.Keys;
    var gone := s.cache.Keys - t.cache.Keys;
    assert s.cache.Keys == t.cache.Keys + gone;
  }

  /** A step that only changes what the store owns by closing. */
  lemma StoreStep(s: State, t: State, maxPools: int)
    requires Inv(s, maxPools) && t.calls == s.calls && t.built == s.built
    requires Dropped(s.store, t.store)
    ensures Inv(t, maxPools)
  {
    DroppedKeeps(s.store, t.store);
    SubsetCache(s.store, t.store);
    assert forall p :: InFlight(t, p) <==> InFlight(s, p);
  }

  /** A call that holds no opened pool before or after moves on, over a store that owns the same pools. */
  lemma CallStep(s: State, t: State, c: nat, call: Call, maxPools: int)
    requires Inv(s, maxPools) && t.calls == s.calls[c := call] && t.built == s.built
    requires (c in s.calls ==> !s.calls[c].Opened?) && !call.Opened?
    requires Consistent(t.store) && Owned(t.store) == Owned(s.store) && |t.store.cache| <= |s.store.cache|
    requires forall k :: k in t.store.cache ==>
               && k in s.store.cache && t.store.cache[k].pool == s.store.cache[k].pool
               && t.store.cache[k].version == s.store.cache[k].version
    requires call.Returned? ==> call.pool in s.built && s.built[call.pool] == (call.key, call.version)
    ensures Inv(t, maxPools)
  {
    hide CachedPools, ClosedPools, Consistent, Owned, InFlight;
    SameFlight(s, t, c, call);
    assert OneOwner(t) by { hide RightVersion, WithinLimit; }
    assert RightVersion(t) by { hide OneOwner, WithinLimit; }
  }

  lemma SameFlight(s: State, t: State, c: nat, call: Call)
    requires t.calls == s.calls[c := call] && (c in s.calls ==> !s.calls[c].Opened?) && !call.Opened?
    ensures forall p :: InFlight(t, p) <==> InFlight(s, p)
  {
    forall p ensures InFlight(t, p) <==> InFlight(s, p) {
      if InFlight(s, p) {
        var d :| d in s.calls && s.calls[d].Opened? && s.calls[d].pool == p;
        assert t.calls[d] == s.calls[d];
      }
    }
  }

  lemma LookUpStep(s: State, c: nat, now: int, t: State, maxPools: int)
    requires Inv(s, maxPools) && Step(s, LookUp(c, now), t, maxPools)
    ensures Inv(t, maxPools)
  {
    LookupKeeps(s.store, s.calls[c].key, s.calls[c].version, now);
    CallStep(s, t, c, t.calls[c], maxPools);
  }

  lemma OpenStep(s: State, c: nat, pool: PoolId, t: State, maxPools: int)
    requires Inv(s, maxPools) && Step(s, OpenSucceeds(c, pool), t, maxPools)
    ensures Inv(t, maxPools)
  {
    forall p ensures InFlight(t, p) <==> InFlight(s, p) || p == pool {
      if InFlight(s, p) {
        var d :| d in s.calls && s.calls[d].Opened? && s.calls[d].pool == p;
        assert t.calls[d] == s.calls[d];
      }
      if p == pool {
        assert t.calls[c].Opened? && t.calls[c].pool == p;
      }
    }
  }

  /** What an insertion does to the store, as the invariant sees it. */
  ghost predicate Handed(s: State, c: nat, call: Call, t: State)
    requires c in s.calls && s.calls[c].Opened?
  {
    var mine := s.calls[c];
    && !call.Opened? && t.calls == s.calls[c := call] && t.built == s.built
    && Consistent(t.store) && Owned(t.store) == Owned(s.store) + {mine.pool}
    && (call.Returned? ==> call.pool in s.built && s.built[call.pool] == (call.key, call.version))
    && forall k :: k in t.store.cache ==>
         || (k in s.store.cache && t.store.cache[k].pool == s.store.cache[k].pool
             && t.store.cache[k].version == s.store.cache[k].version)
         || (k == mine.key && t.store.cache[k].pool == mine.pool && t.store.cache[k].version == mine.version)
  }

  lemma HandedVersions(s: State, c: nat, call: Call, t: State)
    requires c in s.calls && s.calls[c].Opened? && RightVersion(s) && Handed(s, c, call, t)
    ensures RightVersion(t)
  {
    hide Consistent, Owned;
  }

  lemma HandedOwners(s: State, c: nat, call: Call, t: State)
    requires c in s.calls && s.calls[c].Opened? && OneOwner(s) && Handed(s, c, call, t)
    ensures OneOwner(t)
  {
    hide Consistent, Owned;
    var mine := s.calls[c].pool;
    forall p ensures InFlight(s, p) <==> InFlight(t, p) || p == mine {
      if InFlight(s, p) {
        var d :| d in s.calls && s.calls[d].Opened? && s.calls[d].pool == p;
        assert d != c ==> t.calls[d] == s.calls[d];
      }
      if InFlight(t, p) {
        var d :| d in t.calls && t.calls[d].Opened? && t.calls[d].pool == p;
        assert d != c && s.calls[d] == t.calls[d];
      }
    }
    assert forall p :: p in Owned(t.store) <==> p in Owned(s.store) || p == mine;
    forall d | d in t.calls && t.calls[d].Opened? ensures t.calls[d].pool !in Owned(t.store) {
      assert d != c && s.calls[d] == t.calls[d];
    }
  }

  lemma InsertStep(s: State, c: nat, now: int, result: Option<PoolId>, t: State, maxPools: int)
    requires Inv(s, maxPools) && Step(s, Insert(c, now, result), t, maxPools)
    ensures Inv(t, maxPools)
  {
    hide Consistent, Owned, Inserted, InFlight;
    var call := s.calls[c];
    InsertKeeps(s.store, call.key, call.version, call.pool, now, maxPools, result, t.store);
    HandedVersions(s, c, t.calls[c], t);
    HandedOwners(s, c, t.calls[c], t);
  }

  lemma StepKeepsInv(s: State, e: Event, t: State, maxPools: int)
    requires Inv(s, maxPools) && Step(s, e, t, maxPools)
    ensures Inv(t, maxPools)
  {
    hide Inv;
    match e
    case Resolve(c, key, version) => ResolveStep(s, e, t, maxPools);
    case LookUp(c, now) => LookUpStep(s, c, now, t, maxPools);
    case OpenFails(c) => ResolveStep(s, e, t, maxPools);
    case OpenSucceeds(c, pool) => OpenStep(s, c, pool, t, maxPools);
    case Insert(c, now, result) => InsertStep(s, c, now, result, t, maxPools);
    case InvalidateKey(key) =>
      InvConsistent(s, maxPools);
      DropStaleDrops(s.store, key);
      StoreStep(s, t, maxPools);
    case EvictIdle(_, _) => StoreStep(s, t, maxPools);
  }

  lemma InvConsistent(s: State, maxPools: int)
    requires Inv(s, maxPools)
    ensures Consistent(s.store)
  {
  }

  lemma ResolveStep(s: State, e: Event, t: State, maxPools: int)
    requires Inv(s, maxPools) && Step(s, e, t, maxPools) && (e.Resolve? || e.OpenFails?)
    ensures Inv(t, maxPools)
  {
    CallStep(s, t, e.call, t.calls[e.call], maxPools);
  }

  // ---- Every run ----

  ghost predicate Next(s: State, t: State, maxPools: int) {
    exists e :: Step(s, e, t, maxPools)
  }

  ghost predicate IsRun(run: seq<State>, maxPools: int) {
    && run != [] && Init(run[0])
    && forall i :: 0 <= i < |run| - 1 ==> Next(run[i], run[i + 1], maxPools)
  }

  /**
   In every state of every interleaving: the cache stays within its limit, every opened pool has
   exactly one owner and is closed at most once, and a call that resolved a version only ever
   holds or returns a pool built for that key and version.
   */
  lemma {:induction false} EveryRunIsSafe(run: seq<State>, maxPools: int, i: nat)
    requires IsRun(run, maxPools) && i < |run|
    ensures Inv(run[i], maxPools)
    decreases i
  {
    hide Inv, Step;
    if i == 0 {
      InitInv(run[0], maxPools);
    } else {
      EveryRunIsSafe(run, maxPools, i - 1);
      assert Next(run[i - 1], run[i], maxPools);
      var e :| Step(run[i - 1], e, run[i], maxPools);
      StepKeepsInv(run[i - 1], e, run[i], maxPools);
    }
  }

  lemma InitInv(s: State, maxPools: int)
    requires Init(s)
    ensures Inv(s, maxPools)
  {
  }

  /** With the limit taken from the configuration, no run ever caches past the connection budget. */
  lemma EveryRunIsWithinBudget(run: seq<State>, cfg: PoolConfig, i: nat)
    requires IsRun(run, MaxOrgPools(cfg).0) && i < |run|
    requires cfg.maxConnections > 0 && cfg.globalMaxConns > 0 && StartupCheckPasses(cfg)
    ensures MaxOrgPools(cfg).1 + cfg.maxConnections * |run[i].store.cache| <= cfg.globalMaxConns
  {
    hide OneOwner, RightVersion, IsRun;
    EveryRunIsSafe(run, MaxOrgPools(cfg).0, i);
    BudgetHolds(cfg, |run[i].store.cache|);
  }

  // ---- The pools that are open ----

  /** Opened and not yet closed: each of them holds up to maxConnections connections. */
  function OpenPools(s: State): set<PoolId> {
    s.built.Keys - ClosedPools(s.store)
  }

  /** The calls that opened a pool and have not yet handed it to the cache. */
  function Openers(s: State): set<nat> {
    set c | c in s.calls && s.calls[c].Opened?
  }

  function PoolsOf(s: State, calls: set<nat>): set<PoolId>
    requires calls <= Openers(s)
  {
    set c | c in calls :: s.calls[c].pool
  }

  lemma {:induction false} EachOpenerItsPool(s: State, calls: set<nat>)
    requires OneOwner(s) && calls <= Openers(s)
    ensures |PoolsOf(s, calls)| == |calls|
    decreases calls
  {
    hide Consistent, Owned, InFlight;
    if calls != {} {
      var c :| c in calls;
      EachOpenerItsPool(s, calls - {c});
      assert PoolsOf(s, calls) == PoolsOf(s, calls - {c}) + {s.calls[c].pool};
      assert s.calls[c].pool !in PoolsOf(s, calls - {c});
    }
  }

  lemma {:induction false} EachEntryItsPool(s: Store, keys: set<Key>)
    requires Consistent(s) && keys <= s.cache.Keys
    ensures |set k | k in keys :: s.cache[k].pool| == |keys|
    decreases keys
  {
    if keys != {} {
      var k :| k in keys;
      EachEntryItsPool(s, keys - {k});
      var rest := set l | l in keys - {k} :: s.cache[l].pool;
      assert (set l | l in keys :: s.cache[l].pool) == rest + {s.cache[k].pool};
      assert s.cache[k].pool !in rest;
    }
  }

  lemma HeldAreInFlight(s: State)
    ensures forall p :: p in PoolsOf(s, Openers(s)) <==> InFlight(s, p)
  {
  }

  lemma OpenOrHeld(s: State)
    requires OneOwner(s)
    ensures OpenPools(s) == CachedPools(s.store) + PoolsOf(s, Openers(s))
    ensures CachedPools(s.store) !! PoolsOf(s, Openers(s))
  {
    hide CachedPools, ClosedPools, InFlight, PoolsOf, Openers;
    HeldAreInFlight(s);
    assert forall p :: InFlight(s, p) ==> p !in Owned(s.store) by { HeldNotOwned(s); }
    forall p ensures p in OpenPools(s) <==> p in CachedPools(s.store) || p in PoolsOf(s, Openers(s)) {
      assert p in Owned(s.store) <==> p in CachedPools(s.store) || p in ClosedPools(s.store);
    }
  }

  lemma HeldNotOwned(s: State)
    requires OneOwner(s)
    ensures forall p :: InFlight(s, p) ==> p !in Owned(s.store)
  {
    hide Owned, Consistent;
  }

  /** The open pools are the cached ones and one for each opener. */
  lemma OpenPoolsCount(s: State)
    requires OneOwner(s)
    ensures |OpenPools(s)| == |s.store.cache| + |Openers(s)|
  {
    hide OpenPools, PoolsOf, Openers, InFlight;
    OpenOrHeld(s);
    EachOpenerItsPool(s, Openers(s));
    EachEntryItsPool(s.store, s.store.cache.Keys);
    assert CachedPools(s.store) == set k | k in s.store.cache.Keys :: s.store.cache[k].pool;
  }

  /**
   In every state of every run all open pools together, cached or not, keep to the connection budget
   exactly when the cached pools and the calls between opening and inserting are within the limit.
   */
  lemma OpenPoolsWithinBudgetIff(run: seq<State>, cfg: PoolConfig, i: nat)
    requires IsRun(run, MaxOrgPools(cfg).0) && i < |run|
    requires cfg.maxConnections > 0 && cfg.globalMaxConns > 0 && StartupCheckPasses(cfg)
    ensures MaxOrgPools(cfg).1 + cfg.maxConnections * |OpenPools(run[i])| <= cfg.globalMaxConns
       <==> |run[i].store.cache| + |Openers(run[i])| <= MaxOrgPools(cfg).0
  {
    hide OneOwner, RightVersion, IsRun, OpenPools, Openers, MaxOrgPools;
    EveryRunIsSafe(run, MaxOrgPools(cfg).0, i);
    OpenPoolsCount(run[i]);
    BudgetExactly(cfg, |OpenPools(run[i])|);
  }

  /** A number of pools fits into the connection budget exactly when it is within the limit. */
  lemma BudgetExactly(cfg: PoolConfig, pools: nat)
    requires cfg.maxConnections > 0 && cfg.globalMaxConns > 0 && StartupCheckPasses(cfg)
    ensures MaxOrgPools(cfg).1 + cfg.maxConnections * pools <= cfg.globalMaxConns <==> pools <= MaxOrgPools(cfg).0
  {
    var most := MaxOrgPools(cfg).0;
    BudgetHolds(cfg, 0);
    if pools <= most {
      BudgetHolds(cfg, pools);
    } else {
      ProductMonotone(cfg.maxConnections, most + 1, pools);
    }
  }

  /** Calls 0 to n - 1 have each opened a pool for one key, and none has inserted it. */
  function Gathered(n: nat): State {
    State(Store(map[], []), OpenedCalls(n), BuiltPools(n))
  }

  function OpenedCalls(n: nat): map<nat, Call> {
    if n == 0 then map[] else OpenedCalls(n - 1)[n - 1 := Opened("k", 0, n - 1)]
  }

  function BuiltPools(n: nat): map<PoolId, (Key, int)> {
    if n == 0 then map[] else BuiltPools(n - 1)[n - 1 := ("k", 0)]
  }

  lemma {:induction false} WhoOpened(n: nat)
    ensures forall c: nat :: c in OpenedCalls(n) <==> c < n
  {
    if n > 0 { WhoOpened(n - 1); }
  }

  lemma {:induction false} WhatIsBuilt(n: nat)
    ensures (forall p: nat :: p in BuiltPools(n) <==> p < n) && |BuiltPools(n).Keys| == n
  {
    if n > 0 {
      WhatIsBuilt(n - 1);
      assert BuiltPools(n).Keys == BuiltPools(n - 1).Keys + {n - 1};
    }
  }

  lemma ExtendRun(run: seq<State>, e: Event, t: State, maxPools: int) returns (longer: seq<State>)
    requires IsRun(run, maxPools) && Step(run[|run| - 1], e, t, maxPools)
    ensures IsRun(longer, maxPools) && longer[|longer| - 1] == t
  {
    hide Step;
    longer := run + [t];
    assert Next(run[|run| - 1], t, maxPools);
    forall i | 0 <= i < |longer| - 1 ensures Next(longer[i], longer[i + 1], maxPools) {
      if i < |run| - 1 { assert Next(run[i], run[i + 1], maxPools); }
    }
  }

  lemma {:induction false} OpenersGather(n: nat, maxPools: int) returns (run: seq<State>)
    ensures IsRun(run, maxPools) && run[|run| - 1] == Gathered(n)
  {
    hide IsRun, Step;
    if n == 0 {
      run := [Gathered(0)];
      EmptyRun(maxPools);
    } else {
      run := OpenersGather(n - 1, maxPools);
      var s := Gathered(n - 1);
      var resolved := s.(calls := s.calls[n - 1 := Resolved("k", 0)]);
      var missed := s.(calls := s.calls[n - 1 := Opening("k", 0)]);
      OneMoreOpener(n, maxPools);
      run := ExtendRun(run, Resolve(n - 1, "k", 0), resolved, maxPools);
      run := ExtendRun(run, LookUp(n - 1, 0), missed, maxPools);
      run := ExtendRun(run, OpenSucceeds(n - 1, n - 1), Gathered(n), maxPools);
    }
  }

  lemma EmptyRun(maxPools: int)
    ensures IsRun([Gathered(0)], maxPools)
  {
  }

  lemma OneMoreOpener(n: nat, maxPools: int)
    requires n > 0
    ensures var s := Gathered(n - 1);
            var resolved := s.(calls := s.calls[n - 1 := Resolved("k", 0)]);
            var missed := s.(calls := s.calls[n - 1 := Opening("k", 0)]);
            && Step(s, Resolve(n - 1, "k", 0), resolved, maxPools)
            && Step(resolved, LookUp(n - 1, 0), missed, maxPools)
            && Step(missed, OpenSucceeds(n - 1, n - 1), Gathered(n), maxPools)
  {
    WhoOpened(n - 1);
    WhatIsBuilt(n - 1);
    hide OpenedCalls, BuiltPools;
    var before := OpenedCalls(n - 1);
    var missed := before[n - 1 := Opening("k", 0)];
    GatheredMore(n);
    assert before[n - 1 := Resolved("k", 0)][n - 1 := Opening("k", 0)] == missed;
    assert missed[n - 1 := Opened("k", 0, n - 1)] == OpenedCalls(n);
  }

  lemma GatheredMore(n: nat)
    requires n > 0
    ensures OpenedCalls(n) == OpenedCalls(n - 1)[n - 1 := Opened("k", 0, n - 1)]
    ensures BuiltPools(n) == BuiltPools(n - 1)[n - 1 := ("k", 0)]
  {
  }

  /**
   The limit counts cached pools only: under every configuration that passes the startup check, a
   run in which one caller more than the limit opens its pool before any inserts passes the budget.
   */
  lemma OpenersPassBudget(cfg: PoolConfig) returns (run: seq<State>)
    requires cfg.maxConnections > 0 && cfg.globalMaxConns > 0 && StartupCheckPasses(cfg)
    ensures IsRun(run, MaxOrgPools(cfg).0)
    ensures MaxOrgPools(cfg).1 + cfg.maxConnections * |OpenPools(run[|run| - 1])| > cfg.globalMaxConns
  {
    hide IsRun, MaxOrgPools;
    LimitNotNegative(cfg);
    var n := MaxOrgPools(cfg).0 + 1;
    run := OpenersGather(n, MaxOrgPools(cfg).0);
    WhatIsBuilt(n);
    assert OpenPools(Gathered(n)) == Gathered(n).built.Keys;
    BudgetExactly(cfg, n);
  }

  lemma LimitNotNegative(cfg: PoolConfig)
    ensures MaxOrgPools(cfg).0 >= 0
  {
  }

  // ---- What a call returns ----

  /** Whoever is handed a pool is handed one that is open and cached under its key and version at that moment. */
  lemma ReturnedIsOpen(s: State, e: Event, t: State, maxPools: int, c: nat)
    requires Inv(s, maxPools) && Step(s, e, t, maxPools)
    requires c in t.calls && t.calls[c].Returned? && (c in s.calls ==> !s.calls[c].Returned?)
    ensures var call, cache := t.calls[c], t.store.cache;
            && call.key in cache && cache[call.key].pool == call.pool && cache[call.key].version == call.version
            && call.pool in OpenPools(t)
  {
    StepKeepsInv(s, e, t, maxPools);
    ReturnedIsCached(s, e, t, maxPools, c);
    CachedIsOpen(t, t.calls[c].key);
  }

  lemma ReturnedIsCached(s: State, e: Event, t: State, maxPools: int, c: nat)
    requires Step(s, e, t, maxPools)
    requires c in t.calls && t.calls[c].Returned? && (c in s.calls ==> !s.calls[c].Returned?)
    ensures var call, cache := t.calls[c], t.store.cache;
            call.key in cache && cache[call.key].pool == call.pool && cache[call.key].version == call.version
  {
    hide DropStale, Reserved, Evicted;
  }

  lemma CachedIsOpen(s: State, k: Key)
    requires OneOwner(s) && RightVersion(s) && k in s.store.cache
    ensures s.store.cache[k].pool in OpenPools(s)
  {
    assert s.store.cache[k].pool in CachedPools(s.store);
  }

  /** A closed pool stays closed, and is never handed out of the cache again. */
  lemma ClosedForGood(s: State, e: Event, t: State, maxPools: int, p: PoolId)
    requires Inv(s, maxPools) && Step(s, e, t, maxPools) && p in ClosedPools(s.store)
    ensures p in ClosedPools(t.store) && p !in CachedPools(t.store)
  {
    StepKeepsInv(s, e, t, maxPools);
    ClosedGrows(s, e, t, maxPools);
  }

  lemma ClosedGrows(s: State, e: Event, t: State, maxPools: int)
    requires Inv(s, maxPools) && Step(s, e, t, maxPools)
    ensures s.store.closed <= t.store.closed
  {
    if e.Insert? {
      DropStaleDrops(s.store, s.calls[e.call].key);
    }
  }
}
