/**
 The two token buckets: the in-memory limiter and the one-statement SQL bucket. They store
 different states after a denial and still answer alike. Times are minutes, over the reals.
 */
module TokenBucket {
  import opened Options

  datatype Bucket = Bucket(tokens: real, last: real)

  /** Tokens per minute and capacity, as the constructors leave them. */
  datatype Config = Config(rpm: int, burst: int) {
    predicate Valid() {
      rpm > 0 && burst > 0
    }

    function Rate(): real {
      rpm as real
    }

    function Cap(): real {
      burst as real
    }
  }

  function Min(a: real, b: real): real {
    if a <= b then a else b
  }

  /** What flows in during some minutes. */
  function Refill(cfg: Config, minutes: real): real {
    cfg.Rate() * minutes
  }

  /** The tokens available at `now`; a key never seen has a full bucket. */
  function Level(cfg: Config, b: Option<Bucket>, now: real): real {
    match b
    case None => cfg.Cap()
    case Some(x) => Min(cfg.Cap(), x.tokens + Refill(cfg, now - x.last))
  }

  /** ratelimit.go, Limiter.Allow: the refill is stored whatever the answer. */
  function MemoryStep(cfg: Config, b: Option<Bucket>, now: real): (bool, Bucket) {
    var level := Level(cfg, b, now);
    if level >= 1.0 then (true, Bucket(level - 1.0, now)) else (false, Bucket(level, now))
  }

  /** postgres.go, upsertBucketSQL: a new key inserts a row, a known key is updated only if allowed. */
  function SqlStep(cfg: Config, b: Option<Bucket>, now: real): (bool, Bucket) {
    match b
    case None => (true, Bucket(cfg.Cap() - 1.0, now))
    case Some(x) =>
      var level := Level(cfg, b, now);
      if level >= 1.0 then (true, Bucket(level - 1.0, now)) else (false, x)
  }

  // ---- The steps in numbers ----

  lemma RefillInNumbers(cfg: Config, minutes: real)
    ensures Refill(cfg, minutes) == cfg.rpm as real * minutes && cfg.Cap() == cfg.burst as real
  {
  }

  /** What is left of a bucket and what has flowed in since, rpm tokens a minute. */
  function TokensAt(rpm: int, tokens: real, last: real, now: real): real {
    tokens + rpm as real * (now - last)
  }

  /**
   A known bucket: the request is allowed exactly when that makes at least one token. No bucket holds
   more than the burst. An answer yes takes one token; an answer no takes none, and only the
   in-memory bucket stores what has flowed in.
   */
  lemma StepInNumbers(cfg: Config, tokens: real, last: real, now: real)
    requires cfg.Valid()
    ensures var have := TokensAt(cfg.rpm, tokens, last, now);
            var most := if have <= cfg.burst as real then have else cfg.burst as real;
            && MemoryStep(cfg, Some(Bucket(tokens, last)), now)
               == (have >= 1.0, Bucket(if have >= 1.0 then most - 1.0 else most, now))
            && SqlStep(cfg, Some(Bucket(tokens, last)), now)
               == (have >= 1.0, if have >= 1.0 then Bucket(most - 1.0, now) else Bucket(tokens, last))
  {
    hide Refill, TokensAt;
    RefillSince(cfg, tokens, last, now);
    assert cfg.burst as real >= 1.0;
  }

  lemma RefillSince(cfg: Config, tokens: real, last: real, now: real)
    ensures tokens + Refill(cfg, now - last) == TokensAt(cfg.rpm, tokens, last, now)
  {
  }

  /** A key never seen: its first request is allowed and leaves one token less than the burst. */
  lemma FirstStepInNumbers(cfg: Config, now: real)
    requires cfg.Valid()
    ensures MemoryStep(cfg, None, now) == (true, Bucket(cfg.burst as real - 1.0, now))
    ensures SqlStep(cfg, None, now) == (true, Bucket(cfg.burst as real - 1.0, now))
  {
    assert cfg.burst as real >= 1.0;
  }

  // ---- Levels ----

  /** 0 <= tokens <= burst, and the last refill is not in the future. */
  predicate Sound(cfg: Config, b: Option<Bucket>, now: real) {
    b.Some? ==> 0.0 <= b.value.tokens <= cfg.Cap() && b.value.last <= now
  }

  lemma RefillAdds(cfg: Config, a: real, b: real)
    ensures Refill(cfg, a + b) == Refill(cfg, a) + Refill(cfg, b)
    ensures Refill(cfg, 0.0) == 0.0
  {
  }

  lemma RefillSign(cfg: Config, a: real)
    requires cfg.Valid()
    ensures a >= 0.0 ==> Refill(cfg, a) >= 0.0
    ensures a > 0.0 ==> Refill(cfg, a) > 0.0
  {
  }

  /** A bucket's level never falls on its own and rises no faster than its rate. */
  lemma LevelRises(cfg: Config, b: Option<Bucket>, s: real, t: real)
    requires cfg.Valid() && Sound(cfg, b, s) && s <= t
    ensures 0.0 <= Level(cfg, b, s) <= Level(cfg, b, t) <= cfg.Cap()
    ensures Level(cfg, b, t) <= Level(cfg, b, s) + Refill(cfg, t - s)
    ensures Level(cfg, b, t) == Min(cfg.Cap(), Level(cfg, b, s) + Refill(cfg, t - s))
  {
    hide Refill;
    RefillSign(cfg, t - s);
    if b.Some? {
      RefillSign(cfg, s - b.value.last);
      RefillAdds(cfg, s - b.value.last, t - s);
      assert (s - b.value.last) + (t - s) == t - b.value.last;
    }
  }

  lemma LevelOfFresh(cfg: Config, tokens: real, now: real)
    requires tokens <= cfg.Cap()
    ensures Level(cfg, Some(Bucket(tokens, now)), now) == tokens
  {
    hide Refill;
    RefillAdds(cfg, 0.0, 0.0);
    assert now - now == 0.0;
  }

  /** One answer costs one token of the level when it is yes, and nothing when it is no. */
  lemma StepLevel(cfg: Config, b: Option<Bucket>, now: real)
    requires cfg.Valid() && Sound(cfg, b, now)
    ensures var (ok, next) := MemoryStep(cfg, b, now);
            && (ok <==> Level(cfg, b, now) >= 1.0) && Sound(cfg, Some(next), now)
            && Level(cfg, Some(next), now) == Level(cfg, b, now) - if ok then 1.0 else 0.0
    ensures var (ok, next) := SqlStep(cfg, b, now);
            && (ok <==> Level(cfg, b, now) >= 1.0) && Sound(cfg, Some(next), now)
            && Level(cfg, Some(next), now) == Level(cfg, b, now) - if ok then 1.0 else 0.0
  {
    var level := Level(cfg, b, now);
    LevelRises(cfg, b, now, now);
    LevelOfFresh(cfg, level - 1.0, now);
    LevelOfFresh(cfg, level, now);
  }

  // ---- The two buckets answer alike ----

  /** The in-memory bucket is the SQL bucket with its refill already credited. */
  predicate Related(cfg: Config, mem: Option<Bucket>, sql: Option<Bucket>, now: real) {
    && Sound(cfg, mem, now) && Sound(cfg, sql, now)
    && (mem.None? <==> sql.None?)
    && (mem.Some? ==> sql.value.last <= mem.value.last && mem.value.tokens == Level(cfg, sql, mem.value.last))
  }

  /** min(B, min(B, x + r d1) + r d2) = min(B, x + r (d1 + d2)): related buckets have one level. */
  lemma RelatedLevels(cfg: Config, mem: Option<Bucket>, sql: Option<Bucket>, s: real, t: real)
    requires cfg.Valid() && Related(cfg, mem, sql, s) && s <= t
    ensures Level(cfg, mem, t) == Level(cfg, sql, t)
  {
    if mem.Some? {
      LevelRises(cfg, sql, mem.value.last, t);
    }
  }

  /** One request: the same answer, and the buckets stay related although only one stores a denial. */
  lemma SameAnswer(cfg: Config, mem: Option<Bucket>, sql: Option<Bucket>, s: real, now: real)
    requires cfg.Valid() && Related(cfg, mem, sql, s) && s <= now
    ensures var (ok1, mem') := MemoryStep(cfg, mem, now);
            var (ok2, sql') := SqlStep(cfg, sql, now);
            ok1 == ok2 && Related(cfg, Some(mem'), Some(sql'), now)
  {
    RelatedLevels(cfg, mem, sql, s, now);
    StepLevel(cfg, mem, now);
    StepLevel(cfg, sql, now);
    var (ok1, mem') := MemoryStep(cfg, mem, now);
    var (ok2, sql') := SqlStep(cfg, sql, now);
    LevelOfFresh(cfg, mem'.tokens, now);
  }

  // ---- Runs over many keys ----

  /** Where the buckets are kept, and so which of the two steps serves a request. */
  datatype Kind = InMemory | Distributed

  function BucketStep(kind: Kind, cfg: Config, b: Option<Bucket>, now: real): (bool, Bucket) {
    if kind.InMemory? then MemoryStep(cfg, b, now) else SqlStep(cfg, b, now)
  }

  datatype Request = Request(key: string, at: real)

  type Table = map<string, Bucket>

  function Lookup(t: Table, key: string): Option<Bucket> {
    if key in t then Some(t[key]) else None
  }

  /** postgres.go, AllowCtx lets the empty key through without a query; ratelimit.go has no such guard. */
  predicate LetThrough(kind: Kind, key: string) {
    kind.Distributed? && key == ""
  }

  function Answer(kind: Kind, cfg: Config, t: Table, key: string, now: real): (bool, Table) {
    if LetThrough(kind, key) then (true, t)
    else
      var (ok, b) := BucketStep(kind, cfg, Lookup(t, key), now);
      (ok, t[key := b])
  }

  /** Times never go back, starting from `from`. */
  predicate Ordered(reqs: seq<Request>, from: real) {
    reqs == [] || (from <= reqs[0].at && Ordered(reqs[1..], reqs[0].at))
  }

  /** The answers to a sequence of requests, and the table they leave. */
  function Run(kind: Kind, cfg: Config, t: Table, reqs: seq<Request>): (r: (seq<bool>, Table))
    ensures |r.0| == |reqs|
    decreases |reqs|
  {
    if reqs == [] then ([], t)
    else
      var (ok, next) := Answer(kind, cfg, t, reqs[0].key, reqs[0].at);
      var (rest, last) := Run(kind, cfg, next, reqs[1..]);
      ([ok] + rest, last)
  }

  ghost predicate RelatedTables(cfg: Config, mem: Table, sql: Table, now: real) {
    forall key :: key != "" ==> Related(cfg, Lookup(mem, key), Lookup(sql, key), now)
  }

  lemma RelatedLater(cfg: Config, mem: Option<Bucket>, sql: Option<Bucket>, s: real, t: real)
    requires Related(cfg, mem, sql, s) && s <= t
    ensures Related(cfg, mem, sql, t)
  {
  }

  lemma RelatedAfter(cfg: Config, mem: Table, sql: Table, key: string, from: real, now: real)
    requires cfg.Valid() && RelatedTables(cfg, mem, sql, from) && from <= now
    ensures var (ok1, mem') := Answer(InMemory, cfg, mem, key, now);
            var (ok2, sql') := Answer(Distributed, cfg, sql, key, now);
            RelatedTables(cfg, mem', sql', now) && ok2 == (key == "" || ok1)
  {
    hide MemoryStep, SqlStep, Related, Level;
    if key != "" {
      assert Related(cfg, Lookup(mem, key), Lookup(sql, key), from);
      SameAnswer(cfg, Lookup(mem, key), Lookup(sql, key), from, now);
    }
    var mem', sql' := Answer(InMemory, cfg, mem, key, now).1, Answer(Distributed, cfg, sql, key, now).1;
    forall k | k != "" ensures Related(cfg, Lookup(mem', k), Lookup(sql', k), now) {
      assert Related(cfg, Lookup(mem, k), Lookup(sql, k), from);
      RelatedLater(cfg, Lookup(mem, k), Lookup(sql, k), from, now);
    }
  }

  /** Request by request: the distributed answer is the in-memory one, except that the empty key is let through. */
  lemma {:induction false} RelatedRuns(cfg: Config, mem: Table, sql: Table, reqs: seq<Request>, from: real)
    requires cfg.Valid() && RelatedTables(cfg, mem, sql, from) && Ordered(reqs, from)
    ensures forall i :: 0 <= i < |reqs| ==>
              Run(Distributed, cfg, sql, reqs).0[i] == (reqs[i].key == "" || Run(InMemory, cfg, mem, reqs).0[i])
    decreases |reqs|
  {
    hide Answer, RelatedTables;
    if reqs != [] {
      var key, now := reqs[0].key, reqs[0].at;
      RelatedAfter(cfg, mem, sql, key, from, now);
      var mem', sql' := Answer(InMemory, cfg, mem, key, now).1, Answer(Distributed, cfg, sql, key, now).1;
      RelatedRuns(cfg, mem', sql', reqs[1..], now);
      assert forall i :: 0 < i < |reqs| ==> reqs[i] == reqs[1..][i - 1];
    }
  }

  /**
   The distributed and the in-memory limiter give the same answers on every request sequence
   without the empty key.
   */
  lemma LimitersAgree(cfg: Config, reqs: seq<Request>, from: real)
    requires cfg.Valid() && Ordered(reqs, from) && forall i :: 0 <= i < |reqs| ==> reqs[i].key != ""
    ensures Run(InMemory, cfg, map[], reqs).0 == Run(Distributed, cfg, map[], reqs).0
  {
    RelatedRuns(cfg, map[], map[], reqs, from);
  }

  /** With the empty key they agree exactly when the in-memory limiter never denies it. */
  lemma LimitersAgreeIff(cfg: Config, reqs: seq<Request>, from: real)
    requires cfg.Valid() && Ordered(reqs, from)
    ensures Run(InMemory, cfg, map[], reqs).0 == Run(Distributed, cfg, map[], reqs).0
       <==> forall i :: 0 <= i < |reqs| && reqs[i].key == "" ==> Run(InMemory, cfg, map[], reqs).0[i]
  {
    RelatedRuns(cfg, map[], map[], reqs, from);
    var mem, sql := Run(InMemory, cfg, map[], reqs).0, Run(Distributed, cfg, map[], reqs).0;
    if mem == sql {
      forall i | 0 <= i < |reqs| && reqs[i].key == "" ensures mem[i] {
        assert mem[i] == sql[i];
      }
    }
  }

  // ---- One key of a run ----

  function TimesOf(key: string, reqs: seq<Request>): seq<real>
    decreases |reqs|
  {
    if reqs == [] then []
    else (if reqs[0].key == key then [reqs[0].at] else []) + TimesOf(key, reqs[1..])
  }

  function AnswersOf(key: string, reqs: seq<Request>, answers: seq<bool>): seq<bool>
    requires |reqs| == |answers|
    decreases |reqs|
  {
    if reqs == [] then []
    else (if reqs[0].key == key then [answers[0]] else []) + AnswersOf(key, reqs[1..], answers[1..])
  }

  /** Keys do not disturb each other: one key of a run is a run of its own bucket. */
  lemma {:induction false} KeyAlone(kind: Kind, cfg: Config, t: Table, reqs: seq<Request>, key: string)
    requires !LetThrough(kind, key)
    ensures AnswersOf(key, reqs, Run(kind, cfg, t, reqs).0)
        == BucketRun(kind, cfg, Lookup(t, key), TimesOf(key, reqs)).0
    ensures Lookup(Run(kind, cfg, t, reqs).1, key) == BucketRun(kind, cfg, Lookup(t, key), TimesOf(key, reqs)).1
    decreases |reqs|
  {
    hide BucketStep;
    if reqs != [] {
      var now := reqs[0].at;
      var (ok, next) := Answer(kind, cfg, t, reqs[0].key, now);
      var (rest, last) := Run(kind, cfg, next, reqs[1..]);
      assert ([ok] + rest)[1..] == rest;
      KeyAlone(kind, cfg, next, reqs[1..], key);
      if reqs[0].key == key {
        assert TimesOf(key, reqs)[1..] == TimesOf(key, reqs[1..]);
      } else {
        assert Lookup(next, key) == Lookup(t, key);
        assert TimesOf(key, reqs) == TimesOf(key, reqs[1..]);
        assert AnswersOf(key, reqs, [ok] + rest) == AnswersOf(key, reqs[1..], rest);
      }
    }
  }

  lemma {:induction false} TimesInOrder(key: string, reqs: seq<Request>, from: real, to: real)
    requires Ordered(reqs, from) && from <= to && forall i :: 0 <= i < |reqs| ==> reqs[i].at <= to
    ensures Nondecreasing(TimesOf(key, reqs), from, to)
    decreases |reqs|
  {
    if reqs != [] {
      var rest := TimesOf(key, reqs[1..]);
      assert forall i :: 0 <= i < |reqs[1..]| ==> reqs[1..][i] == reqs[i + 1];
      TimesInOrder(key, reqs[1..], reqs[0].at, to);
      if reqs[0].key == key {
        assert TimesOf(key, reqs)[1..] == rest;
      } else {
        assert TimesOf(key, reqs) == rest;
        EarlierStart(rest, from, reqs[0].at, to);
      }
    }
  }

  lemma EarlierStart(times: seq<real>, from: real, later: real, to: real)
    requires Nondecreasing(times, later, to) && from <= later <= to
    ensures Nondecreasing(times, from, to)
  {
  }

  // ---- The window bound ----

  function Count(answers: seq<bool>): nat {
    if answers == [] then 0 else (if answers[0] then 1 else 0) + Count(answers[1..])
  }

  /** The answers one bucket gives to requests at these times, and the bucket afterwards. */
  function BucketRun(kind: Kind, cfg: Config, b: Option<Bucket>, times: seq<real>): (seq<bool>, Option<Bucket>)
    decreases |times|
  {
    if times == [] then ([], b)
    else
      var (ok, next) := BucketStep(kind, cfg, b, times[0]);
      var (rest, last) := BucketRun(kind, cfg, Some(next), times[1..]);
      ([ok] + rest, last)
  }

  predicate Nondecreasing(times: seq<real>, from: real, to: real) {
    if times == [] then from <= to else from <= times[0] && Nondecreasing(times[1..], times[0], to)
  }

  lemma {:induction false} NondecreasingEnds(times: seq<real>, from: real, to: real)
    requires Nondecreasing(times, from, to)
    ensures from <= to
    decreases |times|
  {
    if times != [] { NondecreasingEnds(times[1..], times[0], to); }
  }

  lemma {:induction false} PaidByRefill(kind: Kind, cfg: Config, b: Option<Bucket>, times: seq<real>, from: real,
      to: real)
    requires cfg.Valid() && Sound(cfg, b, from) && Nondecreasing(times, from, to)
    ensures var (answers, last) := BucketRun(kind, cfg, b, times);
            && Sound(cfg, last, to)
            && Count(answers) as real <= Level(cfg, b, from) + Refill(cfg, to - from) - Level(cfg, last, to)
    decreases |times|
  {
    hide Refill, Level;
    NondecreasingEnds(times, from, to);
    if times == [] {
      LevelRises(cfg, b, from, to);
    } else {
      var now := times[0];
      NondecreasingEnds(times[1..], now, to);
      LevelRises(cfg, b, from, now);
      StepLevel(cfg, b, now);
      var (ok, next) := BucketStep(kind, cfg, b, now);
      PaidByRefill(kind, cfg, Some(next), times[1..], now, to);
      RefillAdds(cfg, now - from, to - now);
      assert (now - from) + (to - now) == to - from;
      var (rest, last) := BucketRun(kind, cfg, Some(next), times[1..]);
      assert ([ok] + rest)[1..] == rest;
    }
  }

  /** What was granted is paid for: by the level at the start and rpm tokens a minute, and the rest is still there. */
  lemma GrantedIsPaid(kind: Kind, cfg: Config, b: Option<Bucket>, times: seq<real>, from: real, to: real)
    requires cfg.Valid() && Sound(cfg, b, from) && Nondecreasing(times, from, to)
    ensures var (answers, last) := BucketRun(kind, cfg, b, times);
            && Sound(cfg, last, to)
            && Count(answers) as real <= Level(cfg, b, from) + cfg.rpm as real * (to - from) - Level(cfg, last, to)
  {
    hide Refill, Level, BucketRun;
    PaidByRefill(kind, cfg, b, times, from, to);
    RefillInNumbers(cfg, to - from);
  }

  /** In any window, from any sound bucket, at most burst + rpm x minutes requests are allowed for one key. */
  lemma WindowBound(kind: Kind, cfg: Config, b: Option<Bucket>, times: seq<real>, from: real, to: real)
    requires cfg.Valid() && Sound(cfg, b, from) && Nondecreasing(times, from, to)
    ensures Count(BucketRun(kind, cfg, b, times).0) as real <= cfg.burst as real + cfg.rpm as real * (to - from)
  {
    GrantedIsPaid(kind, cfg, b, times, from, to);
    LevelRises(cfg, b, from, from);
    var last := BucketRun(kind, cfg, b, times).1;
    LevelRises(cfg, last, to, to);
  }

  /** The same for one key of any run of either limiter, whatever the other keys ask. */
  lemma RunWindowBound(kind: Kind, cfg: Config, t: Table, reqs: seq<Request>, key: string, from: real, to: real)
    requires cfg.Valid() && Sound(cfg, Lookup(t, key), from) && !LetThrough(kind, key)
    requires Ordered(reqs, from) && from <= to && forall i :: 0 <= i < |reqs| ==> reqs[i].at <= to
    ensures Count(AnswersOf(key, reqs, Run(kind, cfg, t, reqs).0)) as real
         <= cfg.burst as real + cfg.rpm as real * (to - from)
  {
    hide Refill;
    KeyAlone(kind, cfg, t, reqs, key);
    TimesInOrder(key, reqs, from, to);
    WindowBound(kind, cfg, Lookup(t, key), TimesOf(key, reqs), from, to);
  }

  // ---- Cleanup ----

  datatype Event = Ask(at: real) | Cleanup(at: real, olderThan: real)

  /** postgres.go, CleanupInactive on one row. */
  function CleanupStep(b: Option<Bucket>, now: real, olderThan: real): Option<Bucket> {
    if b.Some? && b.value.last < now - olderThan then None else b
  }

  function EventRun(cfg: Config, b: Option<Bucket>, events: seq<Event>): seq<bool>
    decreases |events|
  {
    if events == [] then []
    else
      match events[0]
      case Ask(at) =>
        var (ok, next) := SqlStep(cfg, b, at);
        [ok] + EventRun(cfg, Some(next), events[1..])
      case Cleanup(at, olderThan) => EventRun(cfg, CleanupStep(b, at, olderThan), events[1..])
  }

  /** The requests alone. */
  function Asks(events: seq<Event>): seq<Event> {
    if events == [] then []
    else if events[0].Ask? then [events[0]] + Asks(events[1..])
    else Asks(events[1..])
  }

  predicate EventsOrdered(events: seq<Event>, from: real) {
    events == [] || (from <= events[0].at && EventsOrdered(events[1..], events[0].at))
  }

  /** Equal buckets, or both full: no later answer can tell them apart. */
  predicate Alike(cfg: Config, a: Option<Bucket>, b: Option<Bucket>, now: real) {
    && Sound(cfg, a, now) && Sound(cfg, b, now)
    && (a == b || (Level(cfg, a, now) == cfg.Cap() && Level(cfg, b, now) == cfg.Cap()))
  }

  lemma AlikeLater(cfg: Config, a: Option<Bucket>, b: Option<Bucket>, s: real, t: real)
    requires cfg.Valid() && Alike(cfg, a, b, s) && s <= t
    ensures Alike(cfg, a, b, t)
  {
    LevelRises(cfg, a, s, t);
    LevelRises(cfg, b, s, t);
  }

  lemma AlikeAnswers(cfg: Config, a: Option<Bucket>, b: Option<Bucket>, now: real)
    requires cfg.Valid() && Alike(cfg, a, b, now)
    ensures SqlStep(cfg, a, now) == SqlStep(cfg, b, now)
  {
  }

  /** A row idle for long enough is full, as a deleted one is. */
  lemma IdleIsFull(cfg: Config, b: Option<Bucket>, now: real, olderThan: real)
    requires cfg.Valid() && Sound(cfg, b, now) && Refill(cfg, olderThan) >= cfg.Cap()
    ensures Alike(cfg, CleanupStep(b, now, olderThan), b, now)
  {
    if b.Some? && b.value.last < now - olderThan {
      var extra := now - b.value.last - olderThan;
      RefillSign(cfg, extra);
      RefillAdds(cfg, olderThan, extra);
      assert olderThan + extra == now - b.value.last;
    }
  }

  lemma AlikeSound(cfg: Config, a: Option<Bucket>, b: Option<Bucket>, now: real)
    requires Alike(cfg, a, b, now)
    ensures Sound(cfg, a, now) && Sound(cfg, b, now)
  {
  }

  lemma AlikeSelf(cfg: Config, a: Option<Bucket>, now: real)
    requires Sound(cfg, a, now)
    ensures Alike(cfg, a, a, now)
  {
  }

  lemma AlikeTransitive(cfg: Config, a: Option<Bucket>, b: Option<Bucket>, c: Option<Bucket>, now: real)
    requires Alike(cfg, a, b, now) && Alike(cfg, b, c, now)
    ensures Alike(cfg, a, c, now)
  {
  }

  function Repeat(t: real, n: nat): seq<real> {
    if n == 0 then [] else [t] + Repeat(t, n - 1)
  }

  function AskAll(times: seq<real>): seq<Event> {
    if times == [] then [] else [Ask(times[0])] + AskAll(times[1..])
  }

  /** burst requests at 0, a cleanup at d, burst requests at d. */
  function DrainCleanDrain(cfg: Config, d: real, olderThan: real): seq<Event>
    requires cfg.Valid()
  {
    AskAll(Repeat(0.0, cfg.burst)) + [Cleanup(d, olderThan)] + AskAll(Repeat(d, cfg.burst))
  }

  /** n requests at one moment against a bucket of level k >= n: all allowed, level k - n left. */
  lemma {:induction false} Drain(cfg: Config, b: Option<Bucket>, t: real, n: nat, tail: seq<Event>)
    requires cfg.Valid() && Sound(cfg, b, t) && Level(cfg, b, t) >= n as real
    ensures var last := BucketRun(Distributed, cfg, b, Repeat(t, n)).1;
            && Sound(cfg, last, t) && Level(cfg, last, t) == Level(cfg, b, t) - n as real
            && (n > 0 ==> last == Some(Bucket(Level(cfg, b, t) - n as real, t)))
            && Count(BucketRun(Distributed, cfg, b, Repeat(t, n)).0) == n
            && EventRun(cfg, b, AskAll(Repeat(t, n)) + tail)
               == BucketRun(Distributed, cfg, b, Repeat(t, n)).0 + EventRun(cfg, last, tail)
    decreases n
  {
    RunThenTail(cfg, b, Repeat(t, n), tail);
    if n > 0 {
      assert Repeat(t, n)[1..] == Repeat(t, n - 1);
      StepLevel(cfg, b, t);
      var (ok, next) := SqlStep(cfg, b, t);
      assert ok && next == Bucket(Level(cfg, b, t) - 1.0, t);
      Drain(cfg, Some(next), t, n - 1, tail);
      var rest := BucketRun(Distributed, cfg, Some(next), Repeat(t, n - 1)).0;
      assert ([ok] + rest)[1..] == rest;
    }
  }

  lemma {:induction false} RunThenTail(cfg: Config, b: Option<Bucket>, times: seq<real>, tail: seq<Event>)
    ensures var (answers, last) := BucketRun(Distributed, cfg, b, times);
            EventRun(cfg, b, AskAll(times) + tail) == answers + EventRun(cfg, last, tail)
    decreases |times|
  {
    hide SqlStep;
    var all := AskAll(times) + tail;
    if times == [] {
      assert all == tail;
    } else {
      assert all[0] == Ask(times[0]) && all[1..] == AskAll(times[1..]) + tail;
      var (ok, next) := SqlStep(cfg, b, times[0]);
      RunThenTail(cfg, Some(next), times[1..], tail);
      var (rest, last) := BucketRun(Distributed, cfg, Some(next), times[1..]);
      assert [ok] + (rest + EventRun(cfg, last, tail)) == [ok] + rest + EventRun(cfg, last, tail);
    }
  }

  lemma {:induction false} AsksConcat(a: seq<Event>, b: seq<Event>)
    ensures Asks(a + b) == Asks(a) + Asks(b)
  {
    if a == [] {
      assert a + b == b;
    } else {
      assert (a + b)[1..] == a[1..] + b;
      AsksConcat(a[1..], b);
    }
  }

  lemma {:induction false} AsksOfAskAll(times: seq<real>)
    ensures Asks(AskAll(times)) == AskAll(times)
  {
    if times != [] {
      assert AskAll(times)[1..] == AskAll(times[1..]);
      AsksOfAskAll(times[1..]);
    }
  }

  lemma {:induction false} RepeatNondecreasing(t: real, n: nat)
    ensures Nondecreasing(Repeat(t, n), t, t)
  {
    if n > 0 {
      assert Repeat(t, n)[1..] == Repeat(t, n - 1);
      RepeatNondecreasing(t, n - 1);
    }
  }

  /** If a row may be deleted before it is full again, some run tells: its second burst is allowed in whole. */
  lemma HastyCleanupShows(cfg: Config, olderThan: real) returns (events: seq<Event>)
    requires cfg.Valid() && olderThan >= 0.0 && Refill(cfg, olderThan) < cfg.Cap()
    ensures EventsOrdered(events, 0.0) && OnlyCleanups(events, olderThan)
    ensures EventRun(cfg, None, events) != EventRun(cfg, None, Asks(events))
  {
    var d := (olderThan + cfg.Cap() / cfg.Rate()) / 2.0;
    MiddleOfRefill(cfg, olderThan, d);
    events := DrainCleanDrain(cfg, d, olderThan);
    DrainCleanDrainShape(cfg, d, olderThan);
    var n := cfg.burst;
    var first, second := Repeat(0.0, n), Repeat(d, n);
    var cleanup := [Cleanup(d, olderThan)];
    var drained := BucketRun(Distributed, cfg, None, first).1;
    Drain(cfg, None, 0.0, n, cleanup + AskAll(second));
    assert drained == Some(Bucket(0.0, 0.0));
    // With the cleanup the second burst meets a full bucket.
    Drain(cfg, None, d, n, []);
    assert AskAll(second) + [] == AskAll(second);
    assert (cleanup + AskAll(second))[1..] == AskAll(second);
    assert EventRun(cfg, drained, cleanup + AskAll(second)) == BucketRun(Distributed, cfg, None, second).0 + [];
    assert events == AskAll(first) + (cleanup + AskAll(second));
    // Without it fewer than burst tokens have come back.
    AsksConcat(AskAll(first), cleanup + AskAll(second));
    AsksOfAskAll(first);
    AsksOfAskAll(second);
    RunThenTail(cfg, None, first, AskAll(second));
    RunThenTail(cfg, drained, second, []);
    RepeatNondecreasing(d, n);
    GrantedIsPaid(Distributed, cfg, drained, second, d, d);
    LevelRises(cfg, BucketRun(Distributed, cfg, drained, second).1, d, d);
    RefillAdds(cfg, 0.0, 0.0);
    assert d - d == 0.0 && d - 0.0 == d;
    assert Count(BucketRun(Distributed, cfg, drained, second).0) < n;
    assert n == Count(BucketRun(Distributed, cfg, None, second).0);
    var prefix := BucketRun(Distributed, cfg, None, first).0;
    var with, without := BucketRun(Distributed, cfg, None, second).0, BucketRun(Distributed, cfg, drained, second).0;
    assert EventRun(cfg, None, events) == prefix + with by { assert with + [] == with; }
    assert EventRun(cfg, None, Asks(events)) == prefix + without by { assert without + [] == without; }
    assert (prefix + with)[|prefix|..] == with && (prefix + without)[|prefix|..] == without;
  }

  lemma MiddleOfRefill(cfg: Config, olderThan: real, d: real)
    requires cfg.Valid() && olderThan >= 0.0 && Refill(cfg, olderThan) < cfg.Cap()
    requires d == (olderThan + cfg.Cap() / cfg.Rate()) / 2.0
    ensures olderThan < d && Refill(cfg, d) < cfg.Cap() && 0.0 <= d
  {
    var full := cfg.Cap() / cfg.Rate();
    FullRefill(cfg);
    RefillSign(cfg, olderThan - full);
    RefillAdds(cfg, full, olderThan - full);
    assert full + (olderThan - full) == olderThan;
    RefillAdds(cfg, d, full - d);
    assert d + (full - d) == full;
    RefillSign(cfg, full - d);
  }

  lemma FullRefill(cfg: Config)
    requires cfg.Valid()
    ensures Refill(cfg, cfg.Cap() / cfg.Rate()) == cfg.Cap()
  {
  }

  predicate OnlyCleanups(events: seq<Event>, olderThan: real) {
    forall i :: 0 <= i < |events| && events[i].Cleanup? ==> events[i].olderThan == olderThan
  }

  lemma DrainCleanDrainShape(cfg: Config, d: real, olderThan: real)
    requires cfg.Valid() && 0.0 <= d
    ensures EventsOrdered(DrainCleanDrain(cfg, d, olderThan), 0.0)
    ensures OnlyCleanups(DrainCleanDrain(cfg, d, olderThan), olderThan)
  {
    var second := AskAll(Repeat(d, cfg.burst));
    var cleanup := [Cleanup(d, olderThan)];
    AsksInOrder(d, d, cfg.burst, []);
    assert second + [] == second;
    assert (cleanup + second)[1..] == second;
    AsksInOrder(0.0, d, cfg.burst, cleanup + second);
    assert DrainCleanDrain(cfg, d, olderThan) == AskAll(Repeat(0.0, cfg.burst)) + (cleanup + second);
    OnlyAsks(0.0, cfg.burst);
    OnlyAsks(d, cfg.burst);
  }

  lemma {:induction false} AsksInOrder(t: real, from: real, n: nat, tail: seq<Event>)
    requires t <= from && EventsOrdered(tail, from)
    ensures EventsOrdered(AskAll(Repeat(t, n)) + tail, t)
  {
    var all := AskAll(Repeat(t, n)) + tail;
    if n == 0 {
      assert all == tail;
    } else {
      assert Repeat(t, n)[1..] == Repeat(t, n - 1);
      assert all[1..] == AskAll(Repeat(t, n - 1)) + tail;
      AsksInOrder(t, from, n - 1, tail);
    }
  }

  lemma {:induction false} OnlyAsks(t: real, n: nat)
    ensures forall i :: 0 <= i < |AskAll(Repeat(t, n))| ==> AskAll(Repeat(t, n))[i].Ask?
  {
    if n > 0 {
      assert Repeat(t, n)[1..] == Repeat(t, n - 1);
      OnlyAsks(t, n - 1);
    }
  }

  // ---- Cleanup among many keys ----

  /** What a distributed limiter is asked: to serve a request, or to delete the idle rows. */
  datatype Call = Serve(key: string, at: real) | Sweep(at: real, olderThan: real)

  /** CleanupInactive on the whole table. */
  function SweepTable(t: Table, now: real, olderThan: real): Table {
    map key | key in t && !(t[key].last < now - olderThan) :: t[key]
  }

  /** A row stays, as it is, exactly when it was last touched no longer ago than that. */
  lemma SweepInNumbers(t: Table, now: real, olderThan: real, key: string)
    ensures key in SweepTable(t, now, olderThan) <==> key in t && now - t[key].last <= olderThan
    ensures key in SweepTable(t, now, olderThan) ==> SweepTable(t, now, olderThan)[key] == t[key]
  {
  }

  /** The answers to the requests among the calls, and the table they leave. */
  function ServiceRun(cfg: Config, t: Table, calls: seq<Call>): (seq<bool>, Table)
    decreases |calls|
  {
    if calls == [] then ([], t)
    else
      match calls[0]
      case Serve(key, at) =>
        var (ok, next) := Answer(Distributed, cfg, t, key, at);
        var (rest, last) := ServiceRun(cfg, next, calls[1..]);
        ([ok] + rest, last)
      case Sweep(at, olderThan) => ServiceRun(cfg, SweepTable(t, at, olderThan), calls[1..])
  }

  /** The requests alone. */
  function Requests(calls: seq<Call>): seq<Request> {
    if calls == [] then []
    else if calls[0].Serve? then [Request(calls[0].key, calls[0].at)] + Requests(calls[1..])
    else Requests(calls[1..])
  }

  predicate CallsOrdered(calls: seq<Call>, from: real) {
    calls == [] || (from <= calls[0].at && CallsOrdered(calls[1..], calls[0].at))
  }

  /** Every cleanup waits long enough for an empty bucket to fill up. */
  predicate SweepsPatient(cfg: Config, calls: seq<Call>) {
    forall i :: 0 <= i < |calls| && calls[i].Sweep? ==>
      cfg.rpm as real * calls[i].olderThan >= cfg.burst as real
  }

  predicate OnlySweeps(calls: seq<Call>, olderThan: real) {
    forall i :: 0 <= i < |calls| && calls[i].Sweep? ==> calls[i].olderThan == olderThan
  }

  ghost predicate AlikeTables(cfg: Config, a: Table, b: Table, now: real) {
    forall key :: Alike(cfg, Lookup(a, key), Lookup(b, key), now)
  }

  lemma ServeAlike(cfg: Config, a: Table, b: Table, key: string, from: real, now: real)
    requires cfg.Valid() && AlikeTables(cfg, a, b, from) && from <= now
    ensures var (ok1, a') := Answer(Distributed, cfg, a, key, now);
            var (ok2, b') := Answer(Distributed, cfg, b, key, now);
            ok1 == ok2 && AlikeTables(cfg, a', b', now)
  {
    hide SqlStep, Alike;
    forall k ensures Alike(cfg, Lookup(a, k), Lookup(b, k), now) {
      AlikeLater(cfg, Lookup(a, k), Lookup(b, k), from, now);
    }
    if key != "" {
      AlikeSound(cfg, Lookup(a, key), Lookup(b, key), now);
      AlikeAnswers(cfg, Lookup(a, key), Lookup(b, key), now);
      StepLevel(cfg, Lookup(a, key), now);
      AlikeSelf(cfg, Some(SqlStep(cfg, Lookup(a, key), now).1), now);
      var a', b' := Answer(Distributed, cfg, a, key, now).1, Answer(Distributed, cfg, b, key, now).1;
      forall k ensures Alike(cfg, Lookup(a', k), Lookup(b', k), now) {
        assert k != key ==> Lookup(a', k) == Lookup(a, k) && Lookup(b', k) == Lookup(b, k);
      }
    }
  }

  lemma SweepAlike(cfg: Config, a: Table, b: Table, olderThan: real, from: real, now: real)
    requires cfg.Valid() && AlikeTables(cfg, a, b, from) && from <= now && Refill(cfg, olderThan) >= cfg.Cap()
    ensures AlikeTables(cfg, SweepTable(a, now, olderThan), b, now)
  {
    hide Alike;
    forall k ensures Alike(cfg, Lookup(SweepTable(a, now, olderThan), k), Lookup(b, k), now) {
      AlikeLater(cfg, Lookup(a, k), Lookup(b, k), from, now);
      AlikeSound(cfg, Lookup(a, k), Lookup(b, k), now);
      IdleIsFull(cfg, Lookup(a, k), now, olderThan);
      AlikeTransitive(cfg, CleanupStep(Lookup(a, k), now, olderThan), Lookup(a, k), Lookup(b, k), now);
    }
  }

  /** Patient cleanups change no answer to any key of any run. */
  lemma {:induction false} CleanupInvisible(cfg: Config, a: Table, b: Table, calls: seq<Call>, from: real)
    requires cfg.Valid() && AlikeTables(cfg, a, b, from)
    requires CallsOrdered(calls, from) && SweepsPatient(cfg, calls)
    ensures ServiceRun(cfg, a, calls).0 == Run(Distributed, cfg, b, Requests(calls)).0
    decreases |calls|
  {
    hide Answer, AlikeTables, SweepTable;
    if calls != [] {
      var now := calls[0].at;
      assert forall i :: 0 <= i < |calls[1..]| ==> calls[1..][i] == calls[i + 1];
      if calls[0].Serve? {
        var key := calls[0].key;
        ServeAlike(cfg, a, b, key, from, now);
        var a', b' := Answer(Distributed, cfg, a, key, now).1, Answer(Distributed, cfg, b, key, now).1;
        CleanupInvisible(cfg, a', b', calls[1..], now);
        assert Requests(calls)[1..] == Requests(calls[1..]);
      } else {
        SweepAlike(cfg, a, b, calls[0].olderThan, from, now);
        CleanupInvisible(cfg, SweepTable(a, now, calls[0].olderThan), b, calls[1..], now);
      }
    }
  }

  /** The calls that happen to one bucket, as calls for a key. */
  function Keyed(key: string, events: seq<Event>): seq<Call> {
    if events == [] then []
    else
      [match events[0] case Ask(at) => Serve(key, at) case Cleanup(at, olderThan) => Sweep(at, olderThan)]
      + Keyed(key, events[1..])
  }

  lemma {:induction false} KeyedRun(cfg: Config, t: Table, key: string, events: seq<Event>)
    requires key != ""
    ensures ServiceRun(cfg, t, Keyed(key, events)).0 == EventRun(cfg, Lookup(t, key), events)
    decreases |events|
  {
    hide SqlStep;
    if events != [] {
      var calls := Keyed(key, events);
      assert calls[1..] == Keyed(key, events[1..]);
      match events[0]
      case Ask(at) => KeyedRun(cfg, t[key := SqlStep(cfg, Lookup(t, key), at).1], key, events[1..]);
      case Cleanup(at, olderThan) => KeyedRun(cfg, SweepTable(t, at, olderThan), key, events[1..]);
    }
  }

  lemma {:induction false} KeyedRequests(cfg: Config, t: Table, key: string, events: seq<Event>)
    requires key != ""
    ensures Run(Distributed, cfg, t, Requests(Keyed(key, events))).0 == EventRun(cfg, Lookup(t, key), Asks(events))
    decreases |events|
  {
    hide SqlStep;
    if events != [] {
      var calls := Keyed(key, events);
      assert calls[1..] == Keyed(key, events[1..]);
      if events[0].Ask? {
        KeyedRequests(cfg, t[key := SqlStep(cfg, Lookup(t, key), events[0].at).1], key, events[1..]);
        assert Requests(calls)[1..] == Requests(calls[1..]);
        assert Asks(events)[1..] == Asks(events[1..]);
      } else {
        KeyedRequests(cfg, t, key, events[1..]);
      }
    }
  }

  lemma {:induction false} KeyedShape(key: string, events: seq<Event>, from: real, olderThan: real)
    requires EventsOrdered(events, from) && OnlyCleanups(events, olderThan)
    ensures CallsOrdered(Keyed(key, events), from) && OnlySweeps(Keyed(key, events), olderThan)
    decreases |events|
  {
    if events != [] {
      assert forall i :: 0 <= i < |events[1..]| ==> events[1..][i] == events[i + 1];
      KeyedShape(key, events[1..], events[0].at, olderThan);
      var calls := Keyed(key, events);
      assert calls[1..] == Keyed(key, events[1..]);
      assert forall i :: 0 < i < |calls| ==> calls[i] == calls[1..][i - 1];
    }
  }

  /** Deleting idle rows changes no answer of any run over any keys exactly when the idle time refills a bucket. */
  lemma CleanupHarmlessIff(cfg: Config, olderThan: real)
    requires cfg.Valid() && olderThan >= 0.0
    ensures cfg.rpm as real * olderThan >= cfg.burst as real
       <==> forall calls: seq<Call> | CallsOrdered(calls, 0.0) && OnlySweeps(calls, olderThan) ::
              ServiceRun(cfg, map[], calls).0 == Run(Distributed, cfg, map[], Requests(calls)).0
  {
    hide ServiceRun, Run;
    RefillInNumbers(cfg, olderThan);
    if Refill(cfg, olderThan) >= cfg.Cap() {
      forall calls: seq<Call> | CallsOrdered(calls, 0.0) && OnlySweeps(calls, olderThan)
        ensures ServiceRun(cfg, map[], calls).0 == Run(Distributed, cfg, map[], Requests(calls)).0
      {
        CleanupInvisible(cfg, map[], map[], calls, 0.0);
      }
    } else {
      var events := HastyCleanupShows(cfg, olderThan);
      var calls := Keyed("k", events);
      KeyedShape("k", events, 0.0, olderThan);
      KeyedRun(cfg, map[], "k", events);
      KeyedRequests(cfg, map[], "k", events);
      assert ServiceRun(cfg, map[], calls).0 != Run(Distributed, cfg, map[], Requests(calls)).0;
    }
  }
}
