/**
 Reservations under concurrency. A Reserve is a transaction that takes the advisory lock of its
 org and user, checks one scope after the other with two queries each, inserts and commits; its
 NOW() is the time it began. Between any two of its statements other transactions may do anything.
 */
module BudgetRuns {
  import opened Options
  import opened BudgetLedger

  /**
   Waiting for the lock; holding it after some checks, perhaps between the two queries of the next
   one; holding it with an uncommitted row; over.
   */
  datatype Phase = Waiting | Checking(passed: nat, read: Option<nat>) | Pending | Over

  datatype Txn = Txn(org: string, user: string, tokens: nat, began: int, phase: Phase)

  datatype State = State(rows: seq<Reservation>, usage: seq<Usage>, txns: map<nat, Txn>, clock: int)

  predicate Init(s: State) {
    s.rows == [] && s.usage == [] && s.txns == map[]
  }

  /** The text that is hashed into the advisory lock's key. */
  function LockKey(t: Txn): string {
    t.org + ":" + t.user
  }

  predicate HoldsLock(t: Txn) {
    t.phase.Checking? || t.phase.Pending?
  }

  datatype Event =
    | Begin(id: nat, org: string, user: string, estimate: int)
    | Lock(id: nat)
    | Skip(id: nat)
    | ReadUsage(id: nat, today: int)
    | ReadActive(id: nat)
    | Insert(id: nat)
    | Commit(id: nat)
    | Abort(id: nat)
    | Mark(row: nat, actual: nat)
    | Release(row: nat)
    | Expire
    | Record(org: string, user: string, today: int, used: nat)
    | Tick(seconds: nat)

  function SetPhase(s: State, id: nat, phase: Phase): State
    requires id in s.txns
  {
    s.(txns := s.txns[id := s.txns[id].(phase := phase)])
  }

  /** The transaction still has a scope to check. */
  predicate ChecksScope(x: Txn) {
    x.phase.Checking? && x.phase.passed < |ScopesFor(x.user)|
  }

  function NextScope(x: Txn): Scope
    requires ChecksScope(x)
  {
    ScopesFor(x.user)[x.phase.passed]
  }

  /** The second query of a check and the comparison of its sum with the limit. */
  function Compared(l: Limits, rows: seq<Reservation>, x: Txn): Phase
    requires ChecksScope(x) && x.phase.read.Some?
  {
    var active := ActiveTokens(rows, x.org, ScopeUser(NextScope(x), x.user), x.began);
    if x.phase.read.value + active + x.tokens <= LimitFor(l, NextScope(x))
    then Checking(x.phase.passed + 1, None)
    else Over
  }

  ghost predicate Step(l: Limits, s: State, e: Event, t: State) {
    match e
    case Begin(id, org, user, estimate) =>
      && id !in s.txns
      && t == s.(txns := s.txns[id := Txn(org, user, if estimate < 0 then 0 else estimate, s.clock, Waiting)])
    case Lock(id) =>
      && id in s.txns && s.txns[id].phase.Waiting?
      && (forall other :: other in s.txns && HoldsLock(s.txns[other]) ==> LockKey(s.txns[other]) != LockKey(s.txns[id]))
      && t == SetPhase(s, id, Checking(0, None))
    case Skip(id) =>
      && id in s.txns && ChecksScope(s.txns[id]) && LimitFor(l, NextScope(s.txns[id])) <= 0
      && t == SetPhase(s, id, Checking(s.txns[id].phase.passed + 1, None))
    case ReadUsage(id, today) =>
      && id in s.txns && ChecksScope(s.txns[id]) && s.txns[id].phase.read.None?
      && LimitFor(l, NextScope(s.txns[id])) > 0
      && var x := s.txns[id];
         var used := CommittedTokens(s.usage, NextScope(x), x.org, x.user, today);
         t == SetPhase(s, id, Checking(x.phase.passed, Some(used)))
    case ReadActive(id) =>
      && id in s.txns && ChecksScope(s.txns[id]) && s.txns[id].phase.read.Some?
      && t == SetPhase(s, id, Compared(l, s.rows, s.txns[id]))
    case Insert(id) =>
      && id in s.txns && s.txns[id].phase == Checking(|ScopesFor(s.txns[id].user)|, None)
      && t == SetPhase(s, id, Pending)
    case Commit(id) =>
      && id in s.txns && s.txns[id].phase.Pending?
      && t == SetPhase(s, id, Over).(rows := s.rows + [RowOf(l, s.txns[id])])
    case Abort(id) => id in s.txns && t == SetPhase(s, id, Over)
    case Mark(row, actual) => t == s.(rows := UpdateReserved(s.rows, row, Committed, Some(actual)))
    case Release(row) => t == s.(rows := UpdateReserved(s.rows, row, Released, None))
    case Expire => t == s.(rows := ExpireAll(s.rows, s.clock))
    case Record(org, user, today, used) => t == s.(usage := RecordUsage(s.usage, org, user, today, used))
    case Tick(seconds) => t == s.(clock := s.clock + seconds)
  }

  function RowOf(l: Limits, x: Txn): Reservation {
    Reservation(x.org, x.user, x.tokens, Reserved, x.began + l.ttl)
  }

  /** What a Reserve commits: its tokens count for its organisation and user until ttl after it began. */
  lemma CommittedRow(l: Limits, x: Txn, org: string, user: string, now: int)
    ensures ActiveTokens([RowOf(l, x)], org, user, now)
         == if org == x.org && (user == "" || user == x.user) && now < x.began + l.ttl then x.tokens else 0
  {
    OneReservation(RowOf(l, x), org, user, now);
  }

  /** The comparison of a check, in numbers. */
  lemma ComparedInNumbers(l: Limits, rows: seq<Reservation>, x: Txn)
    requires ChecksScope(x) && x.phase.read.Some? && LimitFor(l, NextScope(x)) > 0
    ensures var active := ActiveTokens(rows, x.org, if IsUserScope(NextScope(x)) then x.user else "", x.began);
            var room := LimitFor(l, NextScope(x)) - x.phase.read.value - active;
            Compared(l, rows, x) == if x.tokens <= room then Checking(x.phase.passed + 1, None) else Over
  {
  }

  /** Organisation names hold no colon, so only requests of one organisation and one user share a lock. */
  lemma LocksTellApart(a: Txn, b: Txn)
    requires ':' !in a.org && ':' !in b.org
    ensures LockKey(a) == LockKey(b) <==> a.org == b.org && a.user == b.user
  {
    if LockKey(a) == LockKey(b) {
      var key := LockKey(a);
      ColonAt(a);
      ColonAt(b);
      assert key[..|a.org|] == a.org && key[..|b.org|] == b.org;
      assert key[|a.org| + 1..] == a.user && key[|b.org| + 1..] == b.user;
    }
  }

  lemma ColonAt(x: Txn)
    requires ':' !in x.org
    ensures var key, n := LockKey(x), |x.org|;
            && n < |key| && key[n] == ':' && (forall i :: 0 <= i < n ==> key[i] != ':')
            && key[..n] == x.org && key[n + 1..] == x.user
  {
    assert forall i :: 0 <= i < |x.org| ==> LockKey(x)[i] == x.org[i] && x.org[i] in x.org;
  }

  // ---- What is protected ----

  /**
   Which sums are held against which limits: those of users against the user limits, those of whole
   organisations against the organisation limits, or those of users against the organisation limits.
   */
  datatype Level = Users | Orgs | Shares

  /** The sums of a level: per user, or for the empty user per organisation. */
  predicate Reads(g: Level, user: string) {
    g.Orgs? <==> user == ""
  }

  /** The sum of a level that a transaction adds to; a transaction without a user adds to no user's. */
  predicate AddsTo(g: Level, x: Txn) {
    !g.Orgs? ==> x.user != ""
  }

  function Reader(g: Level, x: Txn): string {
    if g.Orgs? then "" else x.user
  }

  function Daily(g: Level, l: Limits): int {
    if g.Users? then l.userDaily else l.orgDaily
  }

  function Monthly(g: Level, l: Limits): int {
    if g.Users? then l.userMonthly else l.orgMonthly
  }

  /** The number of scopes checked before those of the level. */
  function Before(g: Level): nat {
    if g.Users? then 2 else 0
  }

  /** The active reservations of one sum, plus what a transaction still wants to add. */
  predicate Fits(limit: int, rows: seq<Reservation>, org: string, user: string, now: int, extra: nat) {
    limit > 0 ==> ActiveTokens(rows, org, user, now) + extra <= limit
  }

  ghost predicate Within(g: Level, l: Limits, s: State) {
    forall org: string, user: string :: Reads(g, user) ==>
      Fits(Daily(g, l), s.rows, org, user, s.clock, 0) && Fits(Monthly(g, l), s.rows, org, user, s.clock, 0)
  }

  predicate Passed(x: Txn, checks: nat) {
    x.phase.Pending? || (x.phase.Checking? && x.phase.passed >= checks)
  }

  /** What a transaction has already checked stays true until it commits. */
  predicate StillFits(g: Level, l: Limits, s: State, x: Txn) {
    AddsTo(g, x) ==>
      && (Passed(x, Before(g) + 1) ==> Fits(Daily(g, l), s.rows, x.org, Reader(g, x), s.clock, x.tokens))
      && (Passed(x, Before(g) + 2) ==> Fits(Monthly(g, l), s.rows, x.org, Reader(g, x), s.clock, x.tokens))
  }

  ghost predicate Inv(g: Level, l: Limits, s: State) {
    && Nonnegative(s.rows) && Within(g, l, s)
    && forall id :: id in s.txns ==> StillFits(g, l, s, s.txns[id]) && s.txns[id].began <= s.clock
  }

  /** No two transactions that add to one sum are past their locks at once. */
  ghost predicate Alone(g: Level, s: State) {
    forall i, j | i in s.txns && j in s.txns && HoldsLock(s.txns[i]) && HoldsLock(s.txns[j]) ::
      s.txns[i].org == s.txns[j].org && Reader(g, s.txns[i]) == Reader(g, s.txns[j]) ==> i == j
  }

  // ---- The lock ----

  ghost predicate OneHolder(s: State) {
    forall i, j | i in s.txns && j in s.txns && HoldsLock(s.txns[i]) && HoldsLock(s.txns[j]) ::
      LockKey(s.txns[i]) == LockKey(s.txns[j]) ==> i == j
  }

  lemma LockKept(l: Limits, s: State, e: Event, t: State)
    requires OneHolder(s) && Step(l, s, e, t)
    ensures OneHolder(t)
  {
    hide CommittedTokens, ActiveTokens, LockKey, UpdateReserved, ExpireAll, RecordUsage, LimitFor, ScopesFor;
    forall i, j | i in t.txns && j in t.txns && HoldsLock(t.txns[i]) && HoldsLock(t.txns[j])
      ensures LockKey(t.txns[i]) == LockKey(t.txns[j]) ==> i == j
    {
      HolderBefore(l, s, e, t, i);
      HolderBefore(l, s, e, t, j);
    }
  }

  /** Whoever holds a lock held it before, or has just taken it while nobody else held it. */
  lemma HolderBefore(l: Limits, s: State, e: Event, t: State, i: nat)
    requires Step(l, s, e, t) && i in t.txns && HoldsLock(t.txns[i])
    ensures i in s.txns && LockKey(t.txns[i]) == LockKey(s.txns[i]) && (HoldsLock(s.txns[i]) || e == Lock(i))
  {
    hide CommittedTokens, ActiveTokens, LimitFor;
    if i in s.txns {
      assert t.txns[i].org == s.txns[i].org && t.txns[i].user == s.txns[i].user;
    }
  }

  /** The lock keeps the transactions of one user apart, though not those of one organisation. */
  lemma HoldersAreAlone(s: State)
    requires OneHolder(s)
    ensures Alone(Users, s) && Alone(Shares, s)
  {
  }

  // ---- Steps ----

  /** Rows leave 'reserved' or stay, and the clock does not go back: no active sum grows. */
  lemma ShrinkStep(g: Level, l: Limits, s: State, t: State)
    requires Inv(g, l, s) && t.txns == s.txns && s.clock <= t.clock && |t.rows| == |s.rows|
    requires forall i :: 0 <= i < |s.rows| ==>
               t.rows[i] == s.rows[i] || (!t.rows[i].status.Reserved? && s.rows[i].status.Reserved?)
    ensures Inv(g, l, t)
  {
    hide ActiveTokens, Reads, Daily, Monthly, Before, Reader, AddsTo;
    forall org: string, user: string
      ensures ActiveTokens(t.rows, org, user, t.clock) <= ActiveTokens(s.rows, org, user, s.clock)
    {
      ActiveShrinks(s.rows, t.rows, org, user, s.clock, t.clock);
    }
    forall id | id in t.txns ensures StillFits(g, l, t, t.txns[id]) {
      assert StillFits(g, l, s, s.txns[id]);
    }
    forall org: string, user: string | Reads(g, user)
      ensures Fits(Daily(g, l), t.rows, org, user, t.clock, 0) && Fits(Monthly(g, l), t.rows, org, user, t.clock, 0)
    {
      assert Fits(Daily(g, l), s.rows, org, user, s.clock, 0) && Fits(Monthly(g, l), s.rows, org, user, s.clock, 0);
    }
  }

  /** A transaction moves on without touching the rows. */
  lemma TxnStep(g: Level, l: Limits, s: State, t: State, id: nat, x: Txn)
    requires Inv(g, l, s) && t == s.(txns := s.txns[id := x]) && x.began <= s.clock && StillFits(g, l, s, x)
    ensures Inv(g, l, t)
  {
    hide ActiveTokens, Fits, Reads, Daily, Monthly;
    forall i | i in t.txns ensures StillFits(g, l, t, t.txns[i]) && t.txns[i].began <= t.clock {
      assert i != id ==> t.txns[i] == s.txns[i] && StillFits(g, l, s, s.txns[i]);
      SameRowsFit(g, l, s, t, t.txns[i]);
    }
    forall org: string, user: string | Reads(g, user)
      ensures Fits(Daily(g, l), t.rows, org, user, t.clock, 0) && Fits(Monthly(g, l), t.rows, org, user, t.clock, 0)
    {
      assert Fits(Daily(g, l), s.rows, org, user, s.clock, 0) && Fits(Monthly(g, l), s.rows, org, user, s.clock, 0);
    }
  }

  lemma SameRowsFit(g: Level, l: Limits, s: State, t: State, x: Txn)
    requires t.rows == s.rows && t.clock == s.clock
    ensures StillFits(g, l, s, x) <==> StillFits(g, l, t, x)
  {
    hide ActiveTokens;
  }

  lemma ScopeAt(x: Txn)
    requires ChecksScope(x)
    ensures x.phase.passed == 0 ==> NextScope(x) == OrgDaily
    ensures x.phase.passed == 1 ==> NextScope(x) == OrgMonthly
    ensures x.phase.passed == 2 ==> NextScope(x) == UserDaily && x.user != ""
    ensures x.phase.passed == 3 ==> NextScope(x) == UserMonthly && x.user != ""
    ensures x.phase.passed < 4
  {
  }

  /** A passed check holds with the clock of now, although the query read with the older NOW(). */
  lemma ComparedFits(g: Level, l: Limits, s: State, x: Txn)
    requires ChecksScope(x) && x.phase.read.Some? && Nonnegative(s.rows) && x.began <= s.clock && StillFits(g, l, s, x)
    ensures StillFits(g, l, s, x.(phase := Compared(l, s.rows, x)))
  {
    hide ActiveTokens, NextScope;
    ScopeAt(x);
    ActiveShrinks(s.rows, s.rows, x.org, ScopeUser(NextScope(x), x.user), x.began, s.clock);
    ShareOfOrg(s.rows, x.org, x.user, s.clock);
  }

  /** What one user has reserved is part of what the organisation has. */
  lemma {:induction false} ShareOfOrg(rows: seq<Reservation>, org: string, user: string, now: int)
    requires Nonnegative(rows)
    ensures 0 <= ActiveTokens(rows, org, user, now) <= ActiveTokens(rows, org, "", now)
  {
    if rows != [] {
      var front := rows[..|rows| - 1];
      assert forall i :: 0 <= i < |front| ==> front[i] == rows[i];
      ShareOfOrg(front, org, user, now);
    }
  }

  lemma SkippedFits(g: Level, l: Limits, s: State, x: Txn)
    requires ChecksScope(x) && LimitFor(l, NextScope(x)) <= 0 && StillFits(g, l, s, x)
    ensures StillFits(g, l, s, x.(phase := Checking(x.phase.passed + 1, None)))
  {
    hide ActiveTokens, NextScope;
    ScopeAt(x);
  }

  /** The committed row adds its tokens to its own sums, which were checked while nobody else could add to them. */
  lemma CommitStep(g: Level, l: Limits, s: State, id: nat, t: State)
    requires Inv(g, l, s) && Alone(g, s) && Step(l, s, Commit(id), t)
    ensures Inv(g, l, t)
  {
    hide ActiveTokens, LockKey, Daily, Monthly, LimitFor, ScopesFor;
    var x := s.txns[id];
    var r := RowOf(l, x);
    assert StillFits(g, l, s, x);
    forall org: string, user: string | Reads(g, user)
      ensures Fits(Daily(g, l), t.rows, org, user, t.clock, 0) && Fits(Monthly(g, l), t.rows, org, user, t.clock, 0)
    {
      assert Fits(Daily(g, l), s.rows, org, user, s.clock, 0) && Fits(Monthly(g, l), s.rows, org, user, s.clock, 0);
      ActiveAppended(s.rows, r, org, user, s.clock);
    }
    forall i | i in t.txns ensures StillFits(g, l, t, t.txns[i]) && t.txns[i].began <= t.clock {
      if i != id {
        OtherStillFits(g, l, s, id, i, t);
      }
    }
  }

  lemma OtherStillFits(g: Level, l: Limits, s: State, id: nat, i: nat, t: State)
    requires Inv(g, l, s) && Alone(g, s) && Step(l, s, Commit(id), t) && i in s.txns && i != id
    ensures t.txns[i] == s.txns[i] && StillFits(g, l, t, t.txns[i])
  {
    hide ActiveTokens, LockKey, Daily, Monthly, LimitFor, ScopesFor;
    var x, y := s.txns[id], s.txns[i];
    assert StillFits(g, l, s, y);
    ActiveAppended(s.rows, RowOf(l, x), y.org, Reader(g, y), s.clock);
    assert HoldsLock(y) ==> y.org != x.org || Reader(g, y) != Reader(g, x);
  }

  lemma StepKeepsInv(g: Level, l: Limits, s: State, e: Event, t: State)
    requires Inv(g, l, s) && Alone(g, s) && Step(l, s, e, t)
    ensures Inv(g, l, t)
  {
    hide ActiveTokens, CommittedTokens, Fits, Within, Alone, Compared, NextScope;
    match e
    case Begin(id, _, _, _) => TxnStep(g, l, s, t, id, t.txns[id]);
    case Lock(id) => TxnStep(g, l, s, t, id, t.txns[id]);
    case Skip(id) => SkippedFits(g, l, s, s.txns[id]); TxnStep(g, l, s, t, id, t.txns[id]);
    case ReadUsage(id, _) => assert StillFits(g, l, s, s.txns[id]); TxnStep(g, l, s, t, id, t.txns[id]);
    case ReadActive(id) => ComparedFits(g, l, s, s.txns[id]); TxnStep(g, l, s, t, id, t.txns[id]);
    case Insert(id) => InsertedFits(g, l, s, s.txns[id]); TxnStep(g, l, s, t, id, t.txns[id]);
    case Commit(id) => CommitStep(g, l, s, id, t);
    case Abort(id) => TxnStep(g, l, s, t, id, t.txns[id]);
    case Mark(_, _) => ShrinkStep(g, l, s, t);
    case Release(_) => ShrinkStep(g, l, s, t);
    case Expire => ShrinkStep(g, l, s, t);
    case Record(_, _, _, _) => ShrinkStep(g, l, s, t);
    case Tick(_) => ShrinkStep(g, l, s, t);
  }

  lemma InsertedFits(g: Level, l: Limits, s: State, x: Txn)
    requires x.phase == Checking(|ScopesFor(x.user)|, None) && StillFits(g, l, s, x)
    ensures StillFits(g, l, s, x.(phase := Pending))
  {
    hide ActiveTokens;
  }

  // ---- Every run ----

  ghost predicate Next(l: Limits, s: State, t: State) {
    exists e :: Step(l, s, e, t)
  }

  ghost predicate IsRun(l: Limits, run: seq<State>) {
    run != [] && Init(run[0]) && forall i :: 0 <= i < |run| - 1 ==> Next(l, run[i], run[i + 1])
  }

  lemma InitInv(g: Level, l: Limits, s: State)
    requires Init(s)
    ensures Inv(g, l, s) && OneHolder(s)
  {
  }

  lemma {:induction false} EveryRunKeepsInv(g: Level, l: Limits, run: seq<State>, i: nat)
    requires IsRun(l, run) && i < |run| && forall k :: 0 <= k < i ==> Alone(g, run[k])
    ensures Inv(g, l, run[i])
    decreases i
  {
    hide Inv, Step, Alone;
    if i == 0 {
      InitInv(g, l, run[0]);
    } else {
      EveryRunKeepsInv(g, l, run, i - 1);
      assert Next(l, run[i - 1], run[i]);
      var e :| Step(l, run[i - 1], e, run[i]);
      StepKeepsInv(g, l, run[i - 1], e, run[i]);
    }
  }

  lemma {:induction false} UsersAlone(l: Limits, run: seq<State>, i: nat)
    requires IsRun(l, run) && i < |run|
    ensures OneHolder(run[i]) && Alone(Users, run[i]) && Alone(Shares, run[i])
    decreases i
  {
    hide Inv, Step, Alone, OneHolder;
    if i == 0 {
      InitInv(Users, l, run[0]);
    } else {
      UsersAlone(l, run, i - 1);
      assert Next(l, run[i - 1], run[i]);
      var e :| Step(l, run[i - 1], e, run[i]);
      LockKept(l, run[i - 1], e, run[i]);
    }
    HoldersAreAlone(run[i]);
  }

  /** In every interleaving, one user's active reservations never exceed that user's daily or monthly limit. */
  lemma UserReservationsWithinLimits(l: Limits, run: seq<State>, i: nat, org: string, user: string)
    requires IsRun(l, run) && i < |run| && user != ""
    ensures l.userDaily > 0 ==> ActiveTokens(run[i].rows, org, user, run[i].clock) <= l.userDaily
    ensures l.userMonthly > 0 ==> ActiveTokens(run[i].rows, org, user, run[i].clock) <= l.userMonthly
  {
    hide IsRun, ActiveTokens, Alone;
    forall k | 0 <= k < i ensures Alone(Users, run[k]) {
      UsersAlone(l, run, k);
    }
    EveryRunKeepsInv(Users, l, run, i);
    assert Fits(Daily(Users, l), run[i].rows, org, user, run[i].clock, 0);
  }

  /**
   The organisation's limits hold in every run in which no two transactions of one organisation are
   past their locks at once.
   */
  lemma OrgReservationsWithinLimits(l: Limits, run: seq<State>, i: nat, org: string)
    requires IsRun(l, run) && i < |run| && forall k :: 0 <= k < i ==> Alone(Orgs, run[k])
    ensures l.orgDaily > 0 ==> ActiveTokens(run[i].rows, org, "", run[i].clock) <= l.orgDaily
    ensures l.orgMonthly > 0 ==> ActiveTokens(run[i].rows, org, "", run[i].clock) <= l.orgMonthly
  {
    hide IsRun, ActiveTokens, Alone;
    EveryRunKeepsInv(Orgs, l, run, i);
    assert Fits(Daily(Orgs, l), run[i].rows, org, "", run[i].clock, 0);
  }

  /** No reservation ever leaves committed, released or expired; rows are never deleted or reassigned. */
  lemma StepKeepsFinal(l: Limits, s: State, e: Event, t: State)
    requires Step(l, s, e, t)
    ensures |s.rows| <= |t.rows|
    ensures forall i :: 0 <= i < |s.rows| ==>
              && t.rows[i].org == s.rows[i].org && t.rows[i].user == s.rows[i].user
              && t.rows[i].expiresAt == s.rows[i].expiresAt
              && (!s.rows[i].status.Reserved? ==> t.rows[i] == s.rows[i])
  {
    hide ActiveTokens, CommittedTokens, LockKey, LimitFor, ScopesFor, RecordUsage;
  }

  lemma {:induction false} FinalStaysFinal(l: Limits, run: seq<State>, i: nat, j: nat, row: nat)
    requires IsRun(l, run) && i <= j < |run| && row < |run[i].rows| && !run[i].rows[row].status.Reserved?
    ensures row < |run[j].rows| && run[j].rows[row] == run[i].rows[row]
    decreases j
  {
    hide Step;
    if i < j {
      FinalStaysFinal(l, run, i, j - 1, row);
      assert Next(l, run[j - 1], run[j]);
      var e :| Step(l, run[j - 1], e, run[j]);
      StepKeepsFinal(l, run[j - 1], e, run[j]);
    }
  }

  // ---- Many users of one organisation ----

  lemma ExtendRun(l: Limits, run: seq<State>, e: Event, t: State) returns (longer: seq<State>)
    requires IsRun(l, run) && Step(l, run[|run| - 1], e, t)
    ensures IsRun(l, longer) && longer[|longer| - 1] == t
  {
    hide Step;
    longer := run + [t];
    assert Next(l, run[|run| - 1], t);
    forall i | 0 <= i < |longer| - 1 ensures Next(l, longer[i], longer[i + 1]) {
      if i < |run| - 1 { assert Next(l, run[i], run[i + 1]); }
    }
  }

  lemma NothingUsed(scope: Scope, org: string, user: string, today: int)
    ensures CommittedTokens([], scope, org, user, today) == 0
  {
  }

  /** Every configured limit leaves room for n tokens. */
  predicate RoomFor(l: Limits, n: nat) {
    forall scope :: LimitFor(l, scope) <= 0 || n <= LimitFor(l, scope)
  }

  /** A user who asks for no more than any limit passes the next check, as long as nobody has committed. */
  lemma OneCheck(l: Limits, run: seq<State>, s: State, id: nat, passed: nat) returns (longer: seq<State>)
    requires IsRun(l, run) && run[|run| - 1] == s && s.rows == [] && s.usage == []
    requires id in s.txns && s.txns[id].phase == Checking(passed, None) && ChecksScope(s.txns[id])
    requires RoomFor(l, s.txns[id].tokens)
    ensures IsRun(l, longer) && longer[|longer| - 1] == SetPhase(s, id, Checking(passed + 1, None))
  {
    hide CommittedTokens, LimitFor, IsRun, ScopesFor;
    var x, next := s.txns[id], Checking(passed + 1, None);
    if LimitFor(l, NextScope(x)) <= 0 {
      longer := ExtendRun(l, run, Skip(id), SetPhase(s, id, next));
    } else {
      var mid := SetPhase(s, id, Checking(passed, Some(0)));
      NothingUsed(NextScope(x), x.org, x.user, 0);
      longer := ExtendRun(l, run, ReadUsage(id, 0), mid);
      assert Compared(l, [], mid.txns[id]) == next;
      assert SetPhase(mid, id, next) == SetPhase(s, id, next);
      longer := ExtendRun(l, longer, ReadActive(id), SetPhase(s, id, next));
    }
  }

  lemma {:induction false} FourChecks(l: Limits, run: seq<State>, s: State, id: nat, passed: nat)
    returns (longer: seq<State>)
    requires IsRun(l, run) && run[|run| - 1] == s && s.rows == [] && s.usage == []
    requires id in s.txns && s.txns[id].phase == Checking(passed, None) && passed <= 4 && s.txns[id].user != ""
    requires RoomFor(l, s.txns[id].tokens)
    ensures IsRun(l, longer) && longer[|longer| - 1] == SetPhase(s, id, Checking(4, None))
    decreases 4 - passed
  {
    hide IsRun, RoomFor;
    if passed < 4 {
      var next := SetPhase(s, id, Checking(passed + 1, None));
      longer := OneCheck(l, run, s, id, passed);
      longer := FourChecks(l, longer, next, id, passed + 1);
      assert SetPhase(next, id, Checking(4, None)) == SetPhase(s, id, Checking(4, None));
    } else {
      longer := run;
      assert SetPhase(s, id, Checking(4, None)) == s;
    }
  }

  /** The name of the user numbered i. */
  function Name(i: nat): string {
    seq(i + 1, _ => 'u')
  }

  /** Users 0 to k - 1 of one organisation, n tokens each; the first j of them are further on. */
  function Crowd(k: nat, n: nat, j: nat, done: Phase, waiting: Phase): map<nat, Txn> {
    map i: nat | i < k :: Txn("o", Name(i), n, 0, if i < j then done else waiting)
  }

  lemma {:induction false} CrowdBegins(l: Limits, k: nat, n: nat) returns (run: seq<State>)
    ensures IsRun(l, run) && run[|run| - 1] == State([], [], Crowd(k, n, 0, Waiting, Waiting), 0)
  {
    hide IsRun, Step;
    if k == 0 {
      run := [State([], [], map[], 0)];
      FirstState(l);
      assert Crowd(k, n, 0, Waiting, Waiting) == map[];
    } else {
      run := CrowdBegins(l, k - 1, n);
      var t := State([], [], Crowd(k, n, 0, Waiting, Waiting), 0);
      CrowdGrows(l, k, n);
      run := ExtendRun(l, run, Begin(k - 1, "o", Name(k - 1), n), t);
    }
  }

  lemma FirstState(l: Limits)
    ensures IsRun(l, [State([], [], map[], 0)])
  {
  }

  lemma CrowdGrows(l: Limits, k: nat, n: nat)
    requires k > 0
    ensures Step(l, State([], [], Crowd(k - 1, n, 0, Waiting, Waiting), 0), Begin(k - 1, "o", Name(k - 1), n),
                 State([], [], Crowd(k, n, 0, Waiting, Waiting), 0))
  {
    var before, x := Crowd(k - 1, n, 0, Waiting, Waiting), Txn("o", Name(k - 1), n, 0, Waiting);
    assert Crowd(k, n, 0, Waiting, Waiting) == before[k - 1 := x];
  }

  /** One more user of the crowd moves on. */
  lemma CrowdMoves(k: nat, n: nat, j: nat, done: Phase, waiting: Phase, rows: seq<Reservation>)
    requires j < k
    ensures SetPhase(State(rows, [], Crowd(k, n, j, done, waiting), 0), j, done)
         == State(rows, [], Crowd(k, n, j + 1, done, waiting), 0)
  {
  }

  /** Different users have different lock keys. */
  lemma KeysDiffer(i: nat, j: nat, n: nat, a: Phase, b: Phase)
    requires i != j
    ensures LockKey(Txn("o", Name(i), n, 0, a)) != LockKey(Txn("o", Name(j), n, 0, b))
  {
  }

  lemma CrowdLocks(l: Limits, k: nat, n: nat, j: nat)
    requires j < k
    ensures var s := State([], [], Crowd(k, n, j, Checking(4, None), Waiting), 0);
            Step(l, s, Lock(j), SetPhase(s, j, Checking(0, None)))
  {
    hide LockKey, Name;
    var s := State([], [], Crowd(k, n, j, Checking(4, None), Waiting), 0);
    forall i | i in s.txns && HoldsLock(s.txns[i]) ensures LockKey(s.txns[i]) != LockKey(s.txns[j]) {
      KeysDiffer(i, j, n, s.txns[i].phase, s.txns[j].phase);
    }
  }

  /** All users of the crowd take their locks and pass all their checks before anyone commits. */
  lemma {:induction false} CrowdChecks(l: Limits, k: nat, n: nat, j: nat) returns (run: seq<State>)
    requires RoomFor(l, n) && j <= k
    ensures IsRun(l, run) && run[|run| - 1] == State([], [], Crowd(k, n, j, Checking(4, None), Waiting), 0)
  {
    hide IsRun, Step, RoomFor, Name;
    if j == 0 {
      run := CrowdBegins(l, k, n);
      assert Crowd(k, n, 0, Checking(4, None), Waiting) == Crowd(k, n, 0, Waiting, Waiting);
    } else {
      run := CrowdChecks(l, k, n, j - 1);
      var s := State([], [], Crowd(k, n, j - 1, Checking(4, None), Waiting), 0);
      var locked := SetPhase(s, j - 1, Checking(0, None));
      CrowdLocks(l, k, n, j - 1);
      run := ExtendRun(l, run, Lock(j - 1), locked);
      NamedUser(j - 1);
      run := FourChecks(l, run, locked, j - 1, 0);
      assert SetPhase(locked, j - 1, Checking(4, None)) == SetPhase(s, j - 1, Checking(4, None));
      CrowdMoves(k, n, j - 1, Checking(4, None), Waiting, []);
    }
  }

  lemma NamedUser(i: nat)
    ensures Name(i) != ""
  {
  }

  /** The rows the first j users of the crowd commit. */
  function CrowdRows(l: Limits, n: nat, j: nat): seq<Reservation> {
    seq(j, i requires 0 <= i < j => Reservation("o", Name(i), n, Reserved, l.ttl))
  }

  lemma CrowdCommits(l: Limits, k: nat, n: nat, j: nat)
    requires j < k
    ensures var s := State(CrowdRows(l, n, j), [], Crowd(k, n, j, Over, Checking(4, None)), 0);
            var mid := SetPhase(s, j, Pending);
            && Step(l, s, Insert(j), mid)
            && Step(l, mid, Commit(j),
                    State(CrowdRows(l, n, j + 1), [], Crowd(k, n, j + 1, Over, Checking(4, None)), 0))
  {
    hide Name;
    NamedUser(j);
    var s := State(CrowdRows(l, n, j), [], Crowd(k, n, j, Over, Checking(4, None)), 0);
    var mid := SetPhase(s, j, Pending);
    CrowdMoves(k, n, j, Over, Checking(4, None), CrowdRows(l, n, j));
    assert SetPhase(mid, j, Over) == SetPhase(s, j, Over);
    assert CrowdRows(l, n, j + 1) == CrowdRows(l, n, j) + [RowOf(l, mid.txns[j])];
  }

  lemma {:induction false} CrowdReserves(l: Limits, k: nat, n: nat, j: nat) returns (run: seq<State>)
    requires RoomFor(l, n) && j <= k
    ensures IsRun(l, run)
    ensures run[|run| - 1] == State(CrowdRows(l, n, j), [], Crowd(k, n, j, Over, Checking(4, None)), 0)
  {
    hide IsRun, Step, RoomFor, Name;
    if j == 0 {
      run := CrowdChecks(l, k, n, k);
      assert Crowd(k, n, 0, Over, Checking(4, None)) == Crowd(k, n, k, Checking(4, None), Waiting);
    } else {
      run := CrowdReserves(l, k, n, j - 1);
      var s := State(CrowdRows(l, n, j - 1), [], Crowd(k, n, j - 1, Over, Checking(4, None)), 0);
      CrowdCommits(l, k, n, j - 1);
      run := ExtendRun(l, run, Insert(j - 1), SetPhase(s, j - 1, Pending));
      var t := State(CrowdRows(l, n, j), [], Crowd(k, n, j, Over, Checking(4, None)), 0);
      run := ExtendRun(l, run, Commit(j - 1), t);
    }
  }

  lemma {:induction false} CrowdSum(l: Limits, n: nat, j: nat)
    requires l.ttl > 0
    ensures ActiveTokens(CrowdRows(l, n, j), "o", "", 0) == j * n
  {
    hide Name;
    if j > 0 {
      CrowdSum(l, n, j - 1);
      var r := Reservation("o", Name(j - 1), n, Reserved, l.ttl);
      assert CrowdRows(l, n, j) == CrowdRows(l, n, j - 1) + [r];
      ActiveAppended(CrowdRows(l, n, j - 1), r, "o", "", 0);
    }
  }

  // ---- How much users can reserve together ----

  /** All reservations of the organisation are those of the given users. */
  ghost predicate ReservedBy(rows: seq<Reservation>, org: string, users: set<string>) {
    forall i :: 0 <= i < |rows| && rows[i].org == org ==> rows[i].user in users
  }

  /** The organisation's sum is at most the number of its users times what each of them may have. */
  lemma {:induction false} SumOverUsers(rows: seq<Reservation>, org: string, users: set<string>, now: int, each: int)
    requires "" !in users && forall user :: user in users ==> ActiveTokens(rows, org, user, now) <= each
    ensures ActiveTokensOf(rows, org, users, now) <= |users| * each
    decreases users
  {
    hide ActiveTokens;
    if users == {} {
      NobodyActive(rows, org, now);
    } else {
      var user :| user in users;
      SumOverUsers(rows, org, users - {user}, now, each);
      OneUserLess(rows, org, users, user, now);
      assert |users| * each == (|users| - 1) * each + each;
    }
  }

  /** The active tokens of the organisation's reservations by some users. */
  function ActiveTokensOf(rows: seq<Reservation>, org: string, users: set<string>, now: int): int {
    if rows == [] then 0
    else
      var last := rows[|rows| - 1];
      ActiveTokensOf(rows[..|rows| - 1], org, users, now)
      + if IsActive(last, org, "", now) && last.user in users then last.tokens else 0
  }

  lemma {:induction false} NobodyActive(rows: seq<Reservation>, org: string, now: int)
    ensures ActiveTokensOf(rows, org, {}, now) == 0
  {
    if rows != [] {
      NobodyActive(rows[..|rows| - 1], org, now);
    }
  }

  lemma {:induction false} OneUserLess(rows: seq<Reservation>, org: string, users: set<string>, user: string, now: int)
    requires user in users && user != ""
    ensures ActiveTokensOf(rows, org, users, now)
         == ActiveTokensOf(rows, org, users - {user}, now) + ActiveTokens(rows, org, user, now)
  {
    if rows != [] {
      OneUserLess(rows[..|rows| - 1], org, users, user, now);
    }
  }

  lemma {:induction false} AllTheirs(rows: seq<Reservation>, org: string, users: set<string>, now: int)
    requires ReservedBy(rows, org, users)
    ensures ActiveTokens(rows, org, "", now) == ActiveTokensOf(rows, org, users, now)
  {
    if rows != [] {
      var front := rows[..|rows| - 1];
      assert forall i :: 0 <= i < |front| ==> front[i] == rows[i];
      AllTheirs(front, org, users, now);
    }
  }

  /** Every single user stays within each limit, those of the organisation included. */
  lemma OneUserWithin(l: Limits, run: seq<State>, i: nat, org: string, user: string, scope: Scope)
    requires IsRun(l, run) && i < |run| && user != "" && LimitFor(l, scope) > 0
    ensures ActiveTokens(run[i].rows, org, user, run[i].clock) <= LimitFor(l, scope)
  {
    hide IsRun, ActiveTokens, Alone;
    var g := if IsUserScope(scope) then Users else Shares;
    forall k | 0 <= k < i ensures Alone(g, run[k]) {
      UsersAlone(l, run, k);
    }
    EveryRunKeepsInv(g, l, run, i);
    assert Fits(Daily(g, l), run[i].rows, org, user, run[i].clock, 0);
  }

  /** At the end of the run the organisation's reservations are those of at most k named users, and exceed a bound. */
  ghost predicate TogetherExceed(l: Limits, run: seq<State>, org: string, users: set<string>, k: nat, bound: int) {
    && IsRun(l, run) && |users| <= k && "" !in users && ReservedBy(run[|run| - 1].rows, org, users)
    && ActiveTokens(run[|run| - 1].rows, org, "", run[|run| - 1].clock) > bound
  }

  /**
   What k users of one organisation can reserve together, the lock being one per user: each of them
   the smallest limit, whatever the organisation's. So they can exceed a bound exactly when k times
   the smallest limit does.
   */
  lemma UsersToExceed(l: Limits, k: nat, smallest: Scope, bound: int)
    requires l.ttl > 0 && LimitFor(l, smallest) > 0 && RoomFor(l, LimitFor(l, smallest))
    ensures (exists run, org, users :: TogetherExceed(l, run, org, users, k, bound))
       <==> k * LimitFor(l, smallest) > bound
  {
    hide Next, Init, ActiveTokens, LimitFor, ReservedBy, RoomFor;
    var n := LimitFor(l, smallest);
    if run: seq<State>, org: string, users: set<string> :| TogetherExceed(l, run, org, users, k, bound) {
      var last := run[|run| - 1];
      forall user | user in users ensures ActiveTokens(last.rows, org, user, last.clock) <= n {
        OneUserWithin(l, run, |run| - 1, org, user, smallest);
      }
      SumOverUsers(last.rows, org, users, last.clock, n);
      AllTheirs(last.rows, org, users, last.clock);
      MoreUsersMore(|users|, k, n);
    }
    if k * n > bound {
      var run := CrowdReserves(l, k, n, k);
      CrowdSum(l, n, k);
      var users := CrowdNames(l, n, k);
      assert TogetherExceed(l, run, "o", users, k, bound);
    }
  }

  lemma MoreUsersMore(a: nat, b: nat, n: nat)
    requires a <= b
    ensures a * n <= b * n
  {
  }

  lemma {:induction false} CrowdNames(l: Limits, n: nat, k: nat) returns (users: set<string>)
    ensures |users| <= k && "" !in users && ReservedBy(CrowdRows(l, n, k), "o", users)
  {
    hide Name;
    users := {};
    if k > 0 {
      users := CrowdNames(l, n, k - 1);
      users := users + {Name(k - 1)};
      NamedUser(k - 1);
      assert CrowdRows(l, n, k)[..k - 1] == CrowdRows(l, n, k - 1);
      forall i | 0 <= i < k ensures CrowdRows(l, n, k)[i].user in users {
        if i < k - 1 {
          assert CrowdRows(l, n, k)[i] == CrowdRows(l, n, k - 1)[i];
        }
      }
    }
  }

  /** Whatever the limits, enough users of one organisation exceed its daily and its monthly limit. */
  lemma OrgLimitsCanBeExceeded(l: Limits) returns (run: seq<State>)
    requires l.ttl > 0
    ensures IsRun(l, run)
    ensures var last := run[|run| - 1];
            && ActiveTokens(last.rows, "o", "", last.clock) > l.orgDaily
            && ActiveTokens(last.rows, "o", "", last.clock) > l.orgMonthly
  {
    hide IsRun, ActiveTokens;
    var most := if l.orgDaily > l.orgMonthly then l.orgDaily else l.orgMonthly;
    var k: nat := if most < 0 then 1 else most + 1;
    run := CrowdReserves(l, k, 1, k);
    CrowdSum(l, 1, k);
  }
}
