/**
 The limiter objects: their maps are updated in place, one bucket step at a time.
 */
module Limiters {
  import opened Options
  import opened TokenBucket

  /** ratelimit.go, Limiter: two maps that always share their keys. */
  class Limiter {
    var tokens: map<string, real>
    var lastRefill: map<string, real>
    const rpm: int
    const burst: int

    ghost predicate Valid()
      reads this
    {
      rpm > 0 && burst > 0 && tokens.Keys == lastRefill.Keys
    }

    function Settings(): Config {
      Config(rpm, burst)
    }

    /** The buckets the two maps describe. */
    ghost function Buckets(): (t: Table)
      reads this
      requires Valid()
      ensures t.Keys == tokens.Keys
    {
      map key | key in tokens :: Bucket(tokens[key], lastRefill[key])
    }

    /** NewLimiter for a positive rpm; burst defaults to twice the rpm. */
    constructor (rpm: int, burst: int)
      requires rpm > 0
      ensures Valid() && Buckets() == map[]
      ensures this.rpm == rpm && this.burst == if burst <= 0 then rpm * 2 else burst
    {
      this.rpm := rpm;
      this.burst := if burst <= 0 then rpm * 2 else burst;
      tokens, lastRefill := map[], map[];
    }

    /** Limiter.Allow at a given time: one MemoryStep on the key's bucket, the other keys untouched. */
    method Allow(key: string, now: real) returns (ok: bool)
      requires Valid()
      modifies this
      ensures Valid()
      ensures var (allowed, bucket) := MemoryStep(Settings(), Lookup(old(Buckets()), key), now);
              ok == allowed && Buckets() == old(Buckets())[key := bucket]
      ensures ok <==> key !in old(tokens) || TokensAt(rpm, old(tokens[key]), old(lastRefill[key]), now) >= 1.0
    {
      hide Refill, TokensAt;
      var level: real;
      if key !in lastRefill {
        level := burst as real;
      } else {
        var elapsed := now - lastRefill[key];
        level := tokens[key] + Refill(Settings(), elapsed);
      }
      if level > burst as real {
        level := burst as real;
      }
      assert level == Level(Settings(), Lookup(old(Buckets()), key), now);
      if key in tokens {
        StepInNumbers(Settings(), tokens[key], lastRefill[key], now);
      }
      lastRefill := lastRefill[key := now];
      if level >= 1.0 {
        tokens := tokens[key := level - 1.0];
        ok := true;
      } else {
        tokens := tokens[key := level];
        ok := false;
      }
    }
  }

  /** postgres.go, PostgresLimiter with the rows of app.rate_limit_buckets. */
  class PostgresLimiter {
    var rows: Table
    const rpm: int
    const burst: int

    ghost predicate Valid()
      reads this
    {
      burst > 0
    }

    function Settings(): Config {
      Config(rpm, burst)
    }

    /** NewPostgresLimiter; an rpm that is not positive switches the limiter off. */
    constructor (rpm: int, burst: int)
      requires burst > 0 || rpm > 0
      ensures Valid() && rows == map[]
      ensures this.rpm == rpm && this.burst == if burst <= 0 then rpm * 2 else burst
    {
      this.rpm := rpm;
      this.burst := if burst <= 0 then rpm * 2 else burst;
      rows := map[];
    }

    /**
     AllowCtx at a given time: one SqlStep on the key's row; a switched-off limiter or an empty
     key is let through.
     */
    method Allow(key: string, now: real) returns (ok: bool)
      requires Valid()
      modifies this
      ensures Valid()
      ensures rpm <= 0 || key == "" ==> ok && rows == old(rows)
      ensures rpm > 0 && key != "" ==>
                var (allowed, bucket) := SqlStep(Settings(), Lookup(old(rows), key), now);
                ok == allowed && rows == old(rows)[key := bucket]
      ensures rpm > 0 && key != "" ==>
                (ok <==> key !in old(rows) || TokensAt(rpm, old(rows[key].tokens), old(rows[key].last), now) >= 1.0)
    {
      hide Refill, TokensAt;
      if rpm <= 0 || key == "" {
        return true;
      }
      if key !in rows {
        rows := rows[key := Bucket(burst as real - 1.0, now)];
        return true;
      }
      var level := Min(burst as real, rows[key].tokens + Refill(Settings(), now - rows[key].last));
      StepInNumbers(Settings(), rows[key].tokens, rows[key].last, now);
      ok := level >= 1.0;
      assert rows[key := rows[key]] == rows;
      if ok {
        rows := rows[key := Bucket(level - 1.0, now)];
      }
    }

    /** CleanupInactive: exactly the rows last touched before the cutoff go. */
    method CleanupInactive(olderThan: real, now: real) returns (removed: nat)
      requires Valid()
      modifies this
      ensures Valid()
      ensures rows == SweepTable(old(rows), now, olderThan)
      ensures removed == |old(rows)| - |rows|
    {
      var cutoff := now - olderThan;
      var kept := map key | key in rows && !(rows[key].last < cutoff) :: rows[key];
      assert kept.Keys <= rows.Keys;
      SubsetSize(kept.Keys, rows.Keys);
      removed := |rows| - |kept|;
      rows := kept;
    }
  }

  // ---- Sequences of calls ----

  lemma {:induction false} RunAppend(kind: Kind, cfg: Config, t: Table, a: seq<Request>, r: Request)
    ensures var (answers, last) := Run(kind, cfg, t, a);
            var (ok, next) := Answer(kind, cfg, last, r.key, r.at);
            Run(kind, cfg, t, a + [r]) == (answers + [ok], next)
    decreases |a|
  {
    hide Answer;
    var whole := a + [r];
    if a == [] {
      assert whole[1..] == [];
      assert [Answer(kind, cfg, t, r.key, r.at).0] + [] == [] + [Answer(kind, cfg, t, r.key, r.at).0];
    } else {
      assert whole[1..] == a[1..] + [r];
      var (ok, next) := Answer(kind, cfg, t, a[0].key, a[0].at);
      RunAppend(kind, cfg, next, a[1..], r);
      var (rest, last) := Run(kind, cfg, next, a[1..]);
      var more := Answer(kind, cfg, last, r.key, r.at).0;
      assert [ok] + (rest + [more]) == [ok] + rest + [more];
    }
  }

  /** Calling Allow for each request in turn is a run of the in-memory model. */
  method ServeInMemory(limiter: Limiter, reqs: seq<Request>) returns (answers: seq<bool>)
    requires limiter.Valid()
    modifies limiter
    ensures limiter.Valid()
    ensures (answers, limiter.Buckets()) == Run(InMemory, limiter.Settings(), old(limiter.Buckets()), reqs)
  {
    hide MemoryStep, SqlStep;
    answers := [];
    for i := 0 to |reqs|
      invariant limiter.Valid()
      invariant (answers, limiter.Buckets()) == Run(InMemory, limiter.Settings(), old(limiter.Buckets()), reqs[..i])
    {
      RunAppend(InMemory, limiter.Settings(), old(limiter.Buckets()), reqs[..i], reqs[i]);
      assert reqs[..i + 1] == reqs[..i] + [reqs[i]];
      var ok := limiter.Allow(reqs[i].key, reqs[i].at);
      answers := answers + [ok];
    }
    assert reqs[..|reqs|] == reqs;
  }

  /** Calling Allow for each request in turn is a run of the distributed model. */
  method ServeDistributed(limiter: PostgresLimiter, reqs: seq<Request>) returns (answers: seq<bool>)
    requires limiter.Valid() && limiter.rpm > 0
    modifies limiter
    ensures limiter.Valid()
    ensures (answers, limiter.rows) == Run(Distributed, limiter.Settings(), old(limiter.rows), reqs)
  {
    hide MemoryStep, SqlStep;
    answers := [];
    for i := 0 to |reqs|
      invariant limiter.Valid()
      invariant (answers, limiter.rows) == Run(Distributed, limiter.Settings(), old(limiter.rows), reqs[..i])
    {
      RunAppend(Distributed, limiter.Settings(), old(limiter.rows), reqs[..i], reqs[i]);
      assert reqs[..i + 1] == reqs[..i] + [reqs[i]];
      var ok := limiter.Allow(reqs[i].key, reqs[i].at);
      answers := answers + [ok];
    }
    assert reqs[..|reqs|] == reqs;
  }

  lemma {:induction false} ServiceAppend(cfg: Config, t: Table, a: seq<Call>, c: Call)
    ensures var (answers, last) := ServiceRun(cfg, t, a);
            ServiceRun(cfg, t, a + [c])
            == match c
               case Serve(key, at) =>
                 var (ok, next) := Answer(Distributed, cfg, last, key, at);
                 (answers + [ok], next)
               case Sweep(at, olderThan) => (answers, SweepTable(last, at, olderThan))
    decreases |a|
  {
    hide Answer, SweepTable;
    var whole := a + [c];
    if a == [] {
      assert whole[1..] == [];
      assert c.Serve? ==> [Answer(Distributed, cfg, t, c.key, c.at).0] + []
                          == [] + [Answer(Distributed, cfg, t, c.key, c.at).0];
    } else {
      assert whole[1..] == a[1..] + [c];
      if a[0].Serve? {
        var (ok, next) := Answer(Distributed, cfg, t, a[0].key, a[0].at);
        ServiceAppend(cfg, next, a[1..], c);
        var (rest, last) := ServiceRun(cfg, next, a[1..]);
        if c.Serve? {
          var more := Answer(Distributed, cfg, last, c.key, c.at).0;
          assert [ok] + (rest + [more]) == [ok] + rest + [more];
        }
      } else {
        ServiceAppend(cfg, SweepTable(t, a[0].at, a[0].olderThan), a[1..], c);
      }
    }
  }

  /** Calling Allow and CleanupInactive in turn is a run with cleanups of the distributed model. */
  method ServeAndSweep(limiter: PostgresLimiter, calls: seq<Call>) returns (answers: seq<bool>)
    requires limiter.Valid() && limiter.rpm > 0
    modifies limiter
    ensures limiter.Valid()
    ensures (answers, limiter.rows) == ServiceRun(limiter.Settings(), old(limiter.rows), calls)
  {
    hide SqlStep, SweepTable;
    answers := [];
    for i := 0 to |calls|
      invariant limiter.Valid()
      invariant (answers, limiter.rows) == ServiceRun(limiter.Settings(), old(limiter.rows), calls[..i])
    {
      ServiceAppend(limiter.Settings(), old(limiter.rows), calls[..i], calls[i]);
      assert calls[..i + 1] == calls[..i] + [calls[i]];
      match calls[i] {
        case Serve(key, at) =>
          var ok := limiter.Allow(key, at);
          answers := answers + [ok];
        case Sweep(at, olderThan) =>
          var _ := limiter.CleanupInactive(olderThan, at);
      }
    }
    assert calls[..|calls|] == calls;
  }

  lemma {:induction false} SubsetSize<T>(a: set<T>, b: set<T>)
    requires a <= b
    ensures |a| <= |b|
  {
    if a != {} {
      var x :| x in a;
      SubsetSize(a - {x}, b - {x});
    }
  }
}
