/**
 The LLM reservation ledger: the rows of app.llm_budget_reservations and of the two usage
 tables, and each statement of `app/llm/budget.go` as one step on them.
 */
module BudgetLedger {
  import opened Options
  import Calendar

  datatype Status = Reserved | Committed | Released | Expired

  datatype Reservation = Reservation(org: string, user: string, tokens: int, status: Status, expiresAt: int)

  /** One usage row; org-wide rows carry the empty user. Dates are day numbers. */
  datatype Usage = Usage(org: string, user: string, day: int, tokens: nat)

  datatype Scope = OrgDaily | OrgMonthly | UserDaily | UserMonthly

  datatype Limits = Limits(orgDaily: int, orgMonthly: int, userDaily: int, userMonthly: int, ttl: nat)

  /** limitsForScope; 0 or less means unlimited. */
  function LimitFor(l: Limits, scope: Scope): int {
    match scope
    case OrgDaily => l.orgDaily
    case OrgMonthly => l.orgMonthly
    case UserDaily => l.userDaily
    case UserMonthly => l.userMonthly
  }

  /** checkAllScopes: the scopes in order; without a user only the org scopes. */
  function ScopesFor(user: string): seq<Scope> {
    if user == "" then [OrgDaily, OrgMonthly] else [OrgDaily, OrgMonthly, UserDaily, UserMonthly]
  }

  // ---- What the queries read ----

  predicate IsActive(r: Reservation, org: string, user: string, now: int) {
    r.org == org && (user == "" || r.user == user) && r.status.Reserved? && r.expiresAt > now
  }

  /** activeReservations: the empty user sums over the whole organisation. */
  function ActiveTokens(rows: seq<Reservation>, org: string, user: string, now: int): int {
    if rows == [] then 0
    else
      var last := rows[|rows| - 1];
      ActiveTokens(rows[..|rows| - 1], org, user, now) + if IsActive(last, org, user, now) then last.tokens else 0
  }

  /** Whether a scope counts the usage of a day: that of today, or of every day since the month began. */
  predicate InPeriod(scope: Scope, day: int, today: int) {
    match scope
    case OrgDaily | UserDaily => day == today
    case OrgMonthly | UserMonthly => day >= Calendar.MonthStart(Calendar.MonthOf(today))
  }

  function SumUsage(rows: seq<Usage>, org: string, user: string, scope: Scope, today: int): nat {
    if rows == [] then 0
    else
      var r := rows[0];
      (if r.org == org && r.user == user && InPeriod(scope, r.day, today) then r.tokens else 0)
      + SumUsage(rows[1..], org, user, scope, today)
  }

  predicate IsUserScope(scope: Scope) {
    scope.UserDaily? || scope.UserMonthly?
  }

  /** The user a scope is summed for. */
  function ScopeUser(scope: Scope, user: string): string {
    if IsUserScope(scope) then user else ""
  }

  /** committedUsage for a scope on a given day. */
  function CommittedTokens(usage: seq<Usage>, scope: Scope, org: string, user: string, today: int): nat {
    SumUsage(usage, org, ScopeUser(scope, user), scope, today)
  }

  /** checkScope on tokens. */
  predicate ScopeAllows(l: Limits, rows: seq<Reservation>, usage: seq<Usage>, scope: Scope, org: string, user: string,
                        tokens: nat, now: int, today: int) {
    LimitFor(l, scope) <= 0
    || CommittedTokens(usage, scope, org, user, today) + ActiveTokens(rows, org, ScopeUser(scope, user), now) + tokens
       <= LimitFor(l, scope)
  }

  // ---- What the statements write ----

  /** An UPDATE ... WHERE request_id = i AND status = 'reserved'. */
  function UpdateReserved(rows: seq<Reservation>, i: nat, status: Status, tokens: Option<nat>): (r: seq<Reservation>)
    ensures |r| == |rows|
  {
    if i < |rows| && rows[i].status.Reserved? then
      rows[i := rows[i].(status := status, tokens := if tokens.Some? then tokens.value else rows[i].tokens)]
    else rows
  }

  predicate IsExpirable(r: Reservation, now: int) {
    r.status.Reserved? && r.expiresAt < now
  }

  /** ExpireAbandoned. */
  function ExpireAll(rows: seq<Reservation>, now: int): (r: seq<Reservation>)
    ensures |r| == |rows|
    ensures forall i :: 0 <= i < |rows| ==>
              r[i] == if IsExpirable(rows[i], now) then rows[i].(status := Expired) else rows[i]
  {
    if rows == [] then []
    else
      var last := rows[|rows| - 1];
      ExpireAll(rows[..|rows| - 1], now) + [if IsExpirable(last, now) then last.(status := Expired) else last]
  }

  function ExpirableCount(rows: seq<Reservation>, now: int): nat {
    if rows == [] then 0
    else ExpirableCount(rows[..|rows| - 1], now) + if IsExpirable(rows[|rows| - 1], now) then 1 else 0
  }

  predicate IsUsageOf(r: Usage, org: string, user: string, day: int) {
    r.org == org && r.user == user && r.day == day
  }

  /** INSERT ... ON CONFLICT (organization, user, date) DO UPDATE. */
  function AddUsage(usage: seq<Usage>, org: string, user: string, day: int, tokens: nat): seq<Usage> {
    if usage == [] then [Usage(org, user, day, tokens)]
    else if IsUsageOf(usage[0], org, user, day) then
      [usage[0].(tokens := usage[0].tokens + tokens)] + usage[1..]
    else [usage[0]] + AddUsage(usage[1..], org, user, day, tokens)
  }

  /** RecordUsage: the org row always, the user row when there is a user. */
  function RecordUsage(usage: seq<Usage>, org: string, user: string, day: int, tokens: nat): seq<Usage> {
    var orgRow := AddUsage(usage, org, "", day, tokens);
    if user == "" then orgRow else AddUsage(orgRow, org, user, day, tokens)
  }

  lemma {:induction false} AddUsageSums(usage: seq<Usage>, org: string, user: string, day: int, tokens: nat,
                                        o: string, u: string, scope: Scope, today: int)
    ensures SumUsage(AddUsage(usage, org, user, day, tokens), o, u, scope, today)
         == SumUsage(usage, o, u, scope, today)
            + if o == org && u == user && InPeriod(scope, day, today) then tokens else 0
  {
    hide InPeriod;
    if usage != [] {
      var next := AddUsage(usage, org, user, day, tokens);
      if IsUsageOf(usage[0], org, user, day) {
        assert next[1..] == usage[1..];
      } else {
        assert next[1..] == AddUsage(usage[1..], org, user, day, tokens);
        AddUsageSums(usage[1..], org, user, day, tokens, o, u, scope, today);
      }
    }
  }

  /**
   Recording adds the tokens, once, to what every scope of that organisation and user reads as
   committed while its period lasts, and to nothing else.
   */
  lemma RecordCounts(usage: seq<Usage>, org: string, user: string, day: int, tokens: nat,
                     scope: Scope, o: string, u: string, today: int)
    requires IsUserScope(scope) ==> u != ""
    ensures CommittedTokens(RecordUsage(usage, org, user, day, tokens), scope, o, u, today)
         == CommittedTokens(usage, scope, o, u, today)
            + (if o == org && ScopeUser(scope, u) == ScopeUser(scope, user) && InPeriod(scope, day, today)
               then tokens else 0)
  {
    hide SumUsage, AddUsage, InPeriod;
    var orgRow := AddUsage(usage, org, "", day, tokens);
    AddUsageSums(usage, org, "", day, tokens, o, ScopeUser(scope, u), scope, today);
    AddUsageSums(orgRow, org, user, day, tokens, o, ScopeUser(scope, u), scope, today);
  }

  /** Recorded tokens in the daily scopes: they count on their own day and on no other. */
  lemma RecordCountsToday(usage: seq<Usage>, org: string, user: string, day: int, tokens: nat,
                          o: string, u: string, today: int)
    requires u != ""
    ensures CommittedTokens(RecordUsage(usage, org, user, day, tokens), OrgDaily, o, u, today)
         == CommittedTokens(usage, OrgDaily, o, u, today) + if o == org && day == today then tokens else 0
    ensures CommittedTokens(RecordUsage(usage, org, user, day, tokens), UserDaily, o, u, today)
         == CommittedTokens(usage, UserDaily, o, u, today) + if o == org && u == user && day == today then tokens else 0
  {
    hide CommittedTokens, RecordUsage;
    RecordCounts(usage, org, user, day, tokens, OrgDaily, o, u, today);
    RecordCounts(usage, org, user, day, tokens, UserDaily, o, u, today);
  }

  /** In the monthly scopes they count, of the days up to now, on those of the same calendar month. */
  lemma RecordCountsThisMonth(usage: seq<Usage>, org: string, user: string, day: int, tokens: nat,
                              o: string, u: string, today: int)
    requires u != "" && day <= today
    ensures var same := Calendar.MonthOf(day) == Calendar.MonthOf(today);
            && CommittedTokens(RecordUsage(usage, org, user, day, tokens), OrgMonthly, o, u, today)
               == CommittedTokens(usage, OrgMonthly, o, u, today) + (if o == org && same then tokens else 0)
            && CommittedTokens(RecordUsage(usage, org, user, day, tokens), UserMonthly, o, u, today)
               == CommittedTokens(usage, UserMonthly, o, u, today)
                  + if o == org && u == user && same then tokens else 0
  {
    hide CommittedTokens, RecordUsage, InPeriod;
    RecordCounts(usage, org, user, day, tokens, OrgMonthly, o, u, today);
    RecordCounts(usage, org, user, day, tokens, UserMonthly, o, u, today);
    MonthlyPeriod(day, today);
  }

  /** Nothing recorded today: the daily sums are 0, whatever other days hold. */
  lemma {:induction false} OtherDaysDoNotCount(usage: seq<Usage>, org: string, user: string, today: int)
    requires forall i :: 0 <= i < |usage| ==> usage[i].day != today
    ensures CommittedTokens(usage, OrgDaily, org, user, today) == 0
    ensures CommittedTokens(usage, UserDaily, org, user, today) == 0
  {
    if usage != [] {
      assert forall i :: 0 <= i < |usage[1..]| ==> usage[1..][i] == usage[i + 1];
      OtherDaysDoNotCount(usage[1..], org, user, today);
    }
  }

  /** What a check compares with a limit when there is one reservation and no usage, in its fields. */
  lemma OneReservation(r: Reservation, org: string, user: string, now: int)
    ensures ActiveTokens([r], org, user, now)
         == if r.org == org && (user == "" || user == r.user) && r.status == Reserved && now < r.expiresAt
            then r.tokens else 0
  {
    assert [r][..0] == [];
  }

  /** Sums over more rows are sums of sums. */
  lemma {:induction false} ActiveConcat(a: seq<Reservation>, b: seq<Reservation>, org: string, user: string, now: int)
    ensures ActiveTokens(a + b, org, user, now) == ActiveTokens(a, org, user, now) + ActiveTokens(b, org, user, now)
    decreases |b|
  {
    hide IsActive;
    if b == [] {
      assert a + b == a;
    } else {
      var front := b[..|b| - 1];
      assert (a + b)[..|a + b| - 1] == a + front;
      ActiveConcat(a, front, org, user, now);
    }
  }

  /** A check without reservations, in numbers: what is used and what is asked for stay within a positive limit. */
  lemma CheckInNumbers(l: Limits, usage: seq<Usage>, org: string, user: string, tokens: nat, now: int, today: int)
    ensures ScopeAllows(l, [], usage, OrgDaily, org, user, tokens, now, today)
       <==> l.orgDaily <= 0 || CommittedTokens(usage, OrgDaily, org, user, today) + tokens <= l.orgDaily
    ensures ScopeAllows(l, [], usage, OrgMonthly, org, user, tokens, now, today)
       <==> l.orgMonthly <= 0 || CommittedTokens(usage, OrgMonthly, org, user, today) + tokens <= l.orgMonthly
    ensures ScopeAllows(l, [], usage, UserDaily, org, user, tokens, now, today)
       <==> l.userDaily <= 0 || CommittedTokens(usage, UserDaily, org, user, today) + tokens <= l.userDaily
    ensures ScopeAllows(l, [], usage, UserMonthly, org, user, tokens, now, today)
       <==> l.userMonthly <= 0 || CommittedTokens(usage, UserMonthly, org, user, today) + tokens <= l.userMonthly
  {
  }

  /** A reservation stops being active when its time is reached, and is expired once that has passed. */
  lemma ExpiryInNumbers(r: Reservation, now: int)
    ensures IsActive(r, r.org, "", now) <==> r.status == Reserved && now < r.expiresAt
    ensures ExpireAll([r], now) == [if r.status == Reserved && r.expiresAt < now then r.(status := Expired) else r]
  {
    assert [r][..0] == [];
  }

  /** Marking and releasing touch one row, and only while it is reserved; a mark puts the actual tokens in it. */
  lemma SettledInFields(rows: seq<Reservation>, i: nat, actual: nat)
    requires i < |rows|
    ensures var r, mark, free := rows[i], UpdateReserved(rows, i, Committed, Some(actual)),
                                 UpdateReserved(rows, i, Released, None);
            && (r.status == Reserved ==>
                  && mark[i] == Reservation(r.org, r.user, actual, Committed, r.expiresAt)
                  && free[i] == Reservation(r.org, r.user, r.tokens, Released, r.expiresAt))
            && (r.status != Reserved ==> mark == rows && free == rows)
            && forall j :: 0 <= j < |rows| && j != i ==> mark[j] == rows[j] && free[j] == rows[j]
  {
  }

  /** The scopes of a request: two of the organisation, and with a user two of the user. */
  lemma ScopesInOrder(user: string)
    ensures ScopesFor(user)[..2] == [OrgDaily, OrgMonthly] && |ScopesFor("")| == 2
    ensures user != "" ==> ScopesFor(user)[2..] == [UserDaily, UserMonthly]
    ensures ScopeUser(OrgDaily, user) == ScopeUser(OrgMonthly, user) == ""
    ensures ScopeUser(UserDaily, user) == ScopeUser(UserMonthly, user) == user
  {
  }

  /** For past days the monthly period is the calendar month. */
  lemma MonthlyPeriod(day: int, today: int)
    requires day <= today
    ensures InPeriod(OrgMonthly, day, today) <==> Calendar.MonthOf(day) == Calendar.MonthOf(today)
    ensures InPeriod(UserMonthly, day, today) <==> Calendar.MonthOf(day) == Calendar.MonthOf(today)
  {
    hide Calendar.MonthStart, Calendar.MonthOf;
    if InPeriod(OrgMonthly, day, today) {
      Calendar.MonthOfUnique(day, Calendar.MonthOf(today));
    }
  }

  /** The first matching row is the one updated. */
  lemma {:induction false} AddUsageAt(usage: seq<Usage>, org: string, user: string, day: int, tokens: nat, i: nat)
    requires i <= |usage| && forall j :: 0 <= j < i ==> !IsUsageOf(usage[j], org, user, day)
    requires i < |usage| ==> IsUsageOf(usage[i], org, user, day)
    ensures AddUsage(usage, org, user, day, tokens)
         == if i == |usage| then usage + [Usage(org, user, day, tokens)]
            else usage[i := usage[i].(tokens := usage[i].tokens + tokens)]
  {
    if i > 0 {
      assert forall j :: 0 <= j < |usage[1..]| ==> usage[1..][j] == usage[j + 1];
      AddUsageAt(usage[1..], org, user, day, tokens, i - 1);
    }
  }

  // ---- How the active sum moves ----

  /** Reserved rows never hold a negative number of tokens. */
  predicate Nonnegative(rows: seq<Reservation>) {
    forall i :: 0 <= i < |rows| && rows[i].status.Reserved? ==> rows[i].tokens >= 0
  }

  lemma {:induction false} ActiveShrinks(a: seq<Reservation>, b: seq<Reservation>, org: string, user: string, s: int,
      t: int)
    requires |a| == |b| && Nonnegative(a) && s <= t
    requires forall i :: 0 <= i < |a| ==> b[i] == a[i] || (!b[i].status.Reserved? && a[i].status.Reserved?)
    ensures ActiveTokens(b, org, user, t) <= ActiveTokens(a, org, user, s)
  {
    if a != [] {
      var n := |a| - 1;
      assert forall i :: 0 <= i < n ==> a[..n][i] == a[i] && b[..n][i] == b[i];
      ActiveShrinks(a[..n], b[..n], org, user, s, t);
    }
  }

  /** A row that leaves 'reserved' takes its tokens out of the active sum. */
  lemma {:induction false} ActiveSettled(rows: seq<Reservation>, i: nat, status: Status, tokens: Option<nat>,
                                         org: string, user: string, now: int)
    requires i < |rows| && IsActive(rows[i], org, user, now) && !status.Reserved?
    ensures ActiveTokens(UpdateReserved(rows, i, status, tokens), org, user, now)
         == ActiveTokens(rows, org, user, now) - rows[i].tokens
  {
    hide IsActive;
    var front, next := rows[..|rows| - 1], UpdateReserved(rows, i, status, tokens);
    SettledRow(rows[i], status, tokens, org, user, now);
    if i == |rows| - 1 {
      assert next[..i] == front;
    } else {
      assert next[..|rows| - 1] == UpdateReserved(front, i, status, tokens);
      ActiveSettled(front, i, status, tokens, org, user, now);
    }
  }

  lemma SettledRow(r: Reservation, status: Status, tokens: Option<nat>, org: string, user: string, now: int)
    requires IsActive(r, org, user, now) && !status.Reserved?
    ensures r.status.Reserved?
    ensures !IsActive(r.(status := status, tokens := if tokens.Some? then tokens.value else r.tokens), org, user, now)
  {
  }

  /**
   Reconciling replaces the estimate by the actual tokens in what every scope of the reservation's
   user counts, committed and reserved together: nothing is lost and nothing is counted twice.
   */
  lemma ReconcileConserves(rows: seq<Reservation>, usage: seq<Usage>, i: nat, actual: nat, scope: Scope, now: int,
      today: int)
    requires i < |rows| && IsActive(rows[i], rows[i].org, rows[i].user, now)
    requires IsUserScope(scope) ==> rows[i].user != ""
    ensures var r, reader := rows[i], ScopeUser(scope, rows[i].user);
            CommittedTokens(RecordUsage(usage, r.org, r.user, today, actual), scope, r.org, r.user, today)
            + ActiveTokens(UpdateReserved(rows, i, Committed, Some(actual)), r.org, reader, now)
            == CommittedTokens(usage, scope, r.org, r.user, today)
                + ActiveTokens(rows, r.org, reader, now) - r.tokens + actual
  {
    hide CommittedTokens, RecordUsage, ActiveTokens, UpdateReserved;
    var r := rows[i];
    RecordCounts(usage, r.org, r.user, today, actual, scope, r.org, r.user, today);
    TodayCounts(scope, today);
    ActiveSettled(rows, i, Committed, Some(actual), r.org, ScopeUser(scope, r.user), now);
  }

  lemma TodayCounts(scope: Scope, today: int)
    ensures InPeriod(scope, today, today)
  {
    hide Calendar.MonthStart, Calendar.MonthOf;
  }

  lemma ActiveAppended(rows: seq<Reservation>, r: Reservation, org: string, user: string, now: int)
    ensures ActiveTokens(rows + [r], org, user, now)
         == ActiveTokens(rows, org, user, now) + if IsActive(r, org, user, now) then r.tokens else 0
  {
    assert (rows + [r])[..|rows|] == rows;
  }

  lemma NothingToExpire(now: int)
    ensures ExpireAll([], now) == [] && ExpirableCount([], now) == 0
  {
  }

  lemma ExpireOneMore(rows: seq<Reservation>, i: nat, now: int)
    requires i < |rows|
    ensures ExpireAll(rows[..i + 1], now)
         == ExpireAll(rows[..i], now) + [if IsExpirable(rows[i], now) then rows[i].(status := Expired) else rows[i]]
    ensures ExpirableCount(rows[..i + 1], now)
         == ExpirableCount(rows[..i], now) + if IsExpirable(rows[i], now) then 1 else 0
  {
    assert rows[..i + 1][..i] == rows[..i];
  }

  lemma Overwritten(a: seq<Reservation>, x: Reservation, y: Reservation, b: seq<Reservation>)
    ensures a + ([x] + b) == a + [x] + b && (a + ([x] + b))[|a|] == x
    ensures (a + ([x] + b))[|a| := y] == a + [y] + b
  {
  }

  // ---- The store object ----

  class BudgetStore {
    var rows: seq<Reservation>
    var usage: seq<Usage>
    const limits: Limits

    constructor (limits: Limits)
      ensures rows == [] && usage == [] && this.limits == limits
    {
      this.limits := limits;
      rows, usage := [], [];
    }

    /** The SUM of activeReservations. */
    method ActiveReservations(org: string, user: string, now: int) returns (tokens: int)
      ensures tokens == ActiveTokens(rows, org, user, now)
    {
      tokens := 0;
      for i := 0 to |rows|
        invariant tokens == ActiveTokens(rows[..i], org, user, now)
      {
        assert rows[..i + 1][..i] == rows[..i];
        if IsActive(rows[i], org, user, now) {
          tokens := tokens + rows[i].tokens;
        }
      }
      assert rows[..|rows|] == rows;
    }

    /** checkAllScopes: whether every scope in order allows the tokens. */
    method CheckAllScopes(org: string, user: string, tokens: nat, now: int, today: int) returns (ok: bool)
      ensures ok <==> forall i :: 0 <= i < |ScopesFor(user)| ==>
                        ScopeAllows(limits, rows, usage, ScopesFor(user)[i], org, user, tokens, now, today)
    {
      var scopes := ScopesFor(user);
      for i := 0 to |scopes|
        invariant forall j :: 0 <= j < i ==> ScopeAllows(limits, rows, usage, scopes[j], org, user, tokens, now, today)
      {
        var limit := LimitFor(limits, scopes[i]);
        if limit > 0 {
          var reserved := ActiveReservations(org, ScopeUser(scopes[i], user), now);
          if CommittedTokens(usage, scopes[i], org, user, today) + reserved + tokens > limit {
            assert !ScopeAllows(limits, rows, usage, scopes[i], org, user, tokens, now, today);
            return false;
          }
        }
      }
      return true;
    }

    /** The first statement of ReconcileUsage. */
    method MarkCommitted(id: nat, actual: nat)
      modifies this
      ensures rows == UpdateReserved(old(rows), id, Committed, Some(actual)) && usage == old(usage)
    {
      if id < |rows| && rows[id].status.Reserved? {
        rows := rows[id := rows[id].(status := Committed, tokens := actual)];
      }
    }

    method ReleaseReservation(id: nat)
      modifies this
      ensures rows == UpdateReserved(old(rows), id, Released, None) && usage == old(usage)
    {
      if id < |rows| && rows[id].status.Reserved? {
        rows := rows[id := rows[id].(status := Released)];
      }
    }

    /** ExpireAbandoned, which reports how many reservations it expired. */
    method ExpireAbandoned(now: int) returns (n: nat)
      modifies this
      ensures rows == ExpireAll(old(rows), now) && usage == old(usage)
      ensures n == ExpirableCount(old(rows), now)
    {
      hide ExpireAll, ExpirableCount;
      n := 0;
      var before := rows;
      NothingToExpire(now);
      for i := 0 to |before|
        invariant rows == ExpireAll(before[..i], now) + before[i..] && usage == old(usage)
        invariant n == ExpirableCount(before[..i], now)
      {
        ExpireOneMore(before, i, now);
        ghost var finished, rest := ExpireAll(before[..i], now), before[i + 1..];
        assert before[i..] == [before[i]] + rest;
        Overwritten(finished, before[i], before[i].(status := Expired), rest);
        if IsExpirable(rows[i], now) {
          rows := rows[i := rows[i].(status := Expired)];
          n := n + 1;
        }
      }
      assert before[..|before|] == before;
    }

    /** RecordUsage on its day. */
    method Record(org: string, user: string, day: int, tokens: nat)
      modifies this
      ensures usage == RecordUsage(old(usage), org, user, day, tokens) && rows == old(rows)
    {
      UpsertUsage(org, "", day, tokens);
      if user != "" {
        UpsertUsage(org, user, day, tokens);
      }
    }

    method UpsertUsage(org: string, user: string, day: int, tokens: nat)
      modifies this
      ensures usage == AddUsage(old(usage), org, user, day, tokens) && rows == old(rows)
    {
      hide AddUsage;
      var i := 0;
      while i < |usage| && !IsUsageOf(usage[i], org, user, day)
        invariant 0 <= i <= |usage| && forall j :: 0 <= j < i ==> !IsUsageOf(usage[j], org, user, day)
      {
        i := i + 1;
      }
      AddUsageAt(usage, org, user, day, tokens, i);
      if i < |usage| {
        usage := usage[i := usage[i].(tokens := usage[i].tokens + tokens)];
      } else {
        usage := usage + [Usage(org, user, day, tokens)];
      }
    }
  }
}
