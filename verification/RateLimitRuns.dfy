/** The limiter over every run: any requests, any monotone clock, any choice among oldest entries. */
module RateLimitRuns {
  import opened Options
  import opened RateLimit

  /** created is the clock when a bucket would be created, now the clock when a token is asked for. */
  datatype Request = Request(ip: Ip, created: real, now: real)

  datatype Run = Run(reqs: seq<Request>, tables: seq<Table>, evictions: seq<Option<Ip>>, answers: seq<bool>)

  predicate StepAt(cfg: Config, run: Run, n: nat)
    requires n < |run.reqs| && |run.tables| == |run.reqs| + 1
    requires |run.evictions| == |run.reqs| && |run.answers| == |run.reqs|
  {
    var q := run.reqs[n];
    && Evicts(cfg, run.tables[n], q.ip, run.evictions[n])
    && (run.tables[n + 1], run.answers[n])
       == Admit(cfg, Remaining(run.tables[n], run.evictions[n]), q.ip, q.created, q.now)
  }

  ghost predicate IsRun(cfg: Config, run: Run) {
    && |run.tables| == |run.reqs| + 1 && |run.evictions| == |run.reqs| && |run.answers| == |run.reqs|
    && run.tables[0] == map[]
    && (forall n {:trigger StepAt(cfg, run, n)} :: 0 <= n < |run.reqs| ==> StepAt(cfg, run, n))
    && Clocked(run.reqs)
  }

  /** The clock never runs backwards. */
  ghost predicate Clocked(reqs: seq<Request>) {
    && (forall i :: 0 <= i < |reqs| ==> reqs[i].created <= reqs[i].now)
    && (forall i, j :: 0 <= i < j < |reqs| ==> reqs[i].now <= reqs[j].created)
  }

  // ----- Buckets -----

  predicate WellFormed(cfg: Config, b: BucketState, now: real) {
    0.0 <= b.tokens <= cfg.burst as real && b.lastRefill <= now
  }

  /** Refilling would fill the bucket by now. */
  predicate Full(cfg: Config, b: BucketState, now: real) {
    Refilled(cfg, b, now) == cfg.burst as real
  }

  predicate Idle(cfg: Config, b: BucketState, now: real) {
    Gain(cfg, Elapsed(b, now)) >= cfg.burst as real
  }

  lemma IdleIsFull(cfg: Config, b: BucketState, now: real)
    requires WellFormed(cfg, b, now) && Idle(cfg, b, now)
    ensures Full(cfg, b, now)
  {
  }

  lemma Product(a: real, b: real)
    requires a >= 0.0 && b >= 0.0
    ensures a * b >= 0.0
  {
  }

  /** More time gains no less, and gains of consecutive spans add up. */
  lemma GainSplits(cfg: Config, a: real, b: real)
    requires cfg.perSecond >= 0.0 && a <= b
    ensures Gain(cfg, a) + Gain(cfg, b - a) == Gain(cfg, b)
    ensures Gain(cfg, b - a) >= 0.0 && Gain(cfg, 0.0) == 0.0
  {
    Product(b - a, cfg.perSecond);
  }

  lemma FullStays(cfg: Config, b: BucketState, now: real, later: real)
    requires cfg.perSecond >= 0.0 && now <= later && Full(cfg, b, now)
    ensures Full(cfg, b, later)
  {
    GainSplits(cfg, Elapsed(b, now), Elapsed(b, later));
    assert Gain(cfg, Elapsed(b, now)) <= Gain(cfg, Elapsed(b, later));
  }

  lemma FreshIsFull(cfg: Config, created: real, now: real)
    requires cfg.perSecond >= 0.0
    ensures Full(cfg, Fresh(cfg, created), now)
  {
    GainSplits(cfg, 0.0, Elapsed(Fresh(cfg, created), now));
  }

  lemma ConsumedWellFormed(cfg: Config, b: BucketState, now: real)
    requires cfg.perSecond >= 0.0 && WellFormed(cfg, b, now)
    ensures WellFormed(cfg, Consumed(cfg, b, now).0, now)
    ensures b.tokens <= Refilled(cfg, b, now)
  {
    GainSplits(cfg, 0.0, Elapsed(b, now));
  }

  // ----- Tokens and table size in every run -----

  function ClockAt(run: Run, n: nat): real
    requires 0 < n <= |run.reqs|
  {
    run.reqs[n - 1].now
  }

  ghost predicate TableWellFormed(cfg: Config, table: Table, now: real) {
    forall ip :: ip in table ==> WellFormed(cfg, table[ip], now)
  }

  /** In every run tokens stay in [0, burst] and no refill lies in the future. */
  lemma {:induction false} TokensBounded(cfg: Config, run: Run, n: nat)
    requires cfg.perSecond >= 0.0 && IsRun(cfg, run) && n <= |run.reqs|
    ensures n > 0 ==> TableWellFormed(cfg, run.tables[n], ClockAt(run, n))
    ensures n == 0 ==> run.tables[n] == map[]
  {
    if n > 0 {
      TokensBounded(cfg, run, n - 1);
      assert StepAt(cfg, run, n - 1);
      var q, table := run.reqs[n - 1], Remaining(run.tables[n - 1], run.evictions[n - 1]);
      var b := if q.ip in table then table[q.ip] else Fresh(cfg, q.created);
      assert n > 1 ==> ClockAt(run, n - 1) <= q.created;
      ConsumedWellFormed(cfg, b, q.now);
    }
  }

  lemma RoomMade(cfg: Config, table: Table, ip: Ip, evicted: Option<Ip>)
    requires Evicts(cfg, table, ip, evicted) && |table| <= Max(1, cfg.maxEntries)
    ensures |Remaining(table, evicted)| <= Max(1, cfg.maxEntries)
    ensures ip !in Remaining(table, evicted) ==> |Remaining(table, evicted)| < Max(1, cfg.maxEntries)
  {
    if evicted.Some? {
      assert (table - {evicted.value}).Keys == table.Keys - {evicted.value};
    }
  }

  lemma InsertSize(table: Table, ip: Ip, b: BucketState)
    ensures |table[ip := b]| == |table| + if ip in table then 0 else 1
  {
    assert table[ip := b].Keys == table.Keys + {ip};
    if ip in table { assert table.Keys + {ip} == table.Keys; }
  }

  /** In every run the table holds at most max(1, maxEntries) entries. */
  lemma {:induction false} TableBounded(cfg: Config, run: Run, n: nat)
    requires IsRun(cfg, run) && n <= |run.reqs|
    ensures |run.tables[n]| <= Max(1, cfg.maxEntries)
  {
    if n > 0 {
      TableBounded(cfg, run, n - 1);
      assert StepAt(cfg, run, n - 1);
      var ip, rest := run.reqs[n - 1].ip, Remaining(run.tables[n - 1], run.evictions[n - 1]);
      RoomMade(cfg, run.tables[n - 1], ip, run.evictions[n - 1]);
      InsertSize(rest, ip, run.tables[n][ip]);
    }
  }

  // ----- Eviction is unobservable when the evicted bucket is full -----

  /** The table of a limiter that never evicts. */
  function UnboundedTable(cfg: Config, reqs: seq<Request>, n: nat): Table
    requires n <= |reqs|
  {
    if n == 0 then map[] else
      var q := reqs[n - 1];
      Admit(cfg, UnboundedTable(cfg, reqs, n - 1), q.ip, q.created, q.now).0
  }

  function UnboundedAnswer(cfg: Config, reqs: seq<Request>, n: nat): bool
    requires n < |reqs|
  {
    Admit(cfg, UnboundedTable(cfg, reqs, n), reqs[n].ip, reqs[n].created, reqs[n].now).1
  }

  /** What the bounded table lacks of the unbounded one are full buckets. */
  ghost predicate Covers(cfg: Config, table: Table, unbounded: Table, now: real) {
    && (forall ip :: ip in table ==> ip in unbounded && unbounded[ip] == table[ip])
    && (forall ip :: ip in unbounded && ip !in table ==> Full(cfg, unbounded[ip], now))
  }

  /** Request n evicts nothing, or a bucket that would have been full by then. */
  predicate FullWhenEvicted(cfg: Config, run: Run, n: nat)
    requires n < |run.reqs| && |run.tables| == |run.reqs| + 1 && |run.evictions| == |run.reqs|
  {
    var e := run.evictions[n];
    e.Some? ==> e.value in run.tables[n] && Full(cfg, run.tables[n][e.value], run.reqs[n].now)
  }

  ghost predicate EvictsOnlyFull(cfg: Config, run: Run)
    requires |run.tables| == |run.reqs| + 1 && |run.evictions| == |run.reqs|
  {
    forall n {:trigger FullWhenEvicted(cfg, run, n)} :: 0 <= n < |run.reqs| ==> FullWhenEvicted(cfg, run, n)
  }

  lemma StepCovers(cfg: Config, table: Table, unbounded: Table, evicted: Option<Ip>, q: Request, before: real)
    requires cfg.perSecond >= 0.0 && before <= q.created <= q.now
    requires Covers(cfg, table, unbounded, before)
    requires evicted.Some? ==> evicted.value in table && Full(cfg, table[evicted.value], q.now)
    ensures var a := Admit(cfg, Remaining(table, evicted), q.ip, q.created, q.now);
            var u := Admit(cfg, unbounded, q.ip, q.created, q.now);
            a.1 == u.1 && Covers(cfg, a.0, u.0, q.now)
  {
    forall ip | ip in unbounded && ip !in table ensures Full(cfg, unbounded[ip], q.now) {
      FullStays(cfg, unbounded[ip], before, q.now);
    }
    FreshIsFull(cfg, q.created, q.now);
  }

  lemma {:induction false} RunCovers(cfg: Config, run: Run, n: nat)
    requires cfg.perSecond >= 0.0 && IsRun(cfg, run) && EvictsOnlyFull(cfg, run) && n <= |run.reqs|
    ensures n > 0 ==> Covers(cfg, run.tables[n], UnboundedTable(cfg, run.reqs, n), ClockAt(run, n))
    ensures n > 0 ==> run.answers[n - 1] == UnboundedAnswer(cfg, run.reqs, n - 1)
  {
    if n > 0 {
      RunCovers(cfg, run, n - 1);
      assert StepAt(cfg, run, n - 1) && FullWhenEvicted(cfg, run, n - 1);
      var q := run.reqs[n - 1];
      StepCovers(cfg, run.tables[n - 1], UnboundedTable(cfg, run.reqs, n - 1), run.evictions[n - 1], q,
                 if n > 1 then ClockAt(run, n - 1) else q.created);
    }
  }

  /** If every evicted bucket would have been full, each answer is that of a limiter with an
      unbounded table, whichever oldest entries were evicted. */
  lemma EvictionUnobservable(cfg: Config, run: Run, n: nat)
    requires cfg.perSecond >= 0.0 && IsRun(cfg, run) && EvictsOnlyFull(cfg, run) && n < |run.reqs|
    ensures run.answers[n] == UnboundedAnswer(cfg, run.reqs, n)
  {
    RunCovers(cfg, run, n + 1);
  }

  /** Being idle for burst/perSecond is enough. */
  lemma IdleEvictionUnobservable(cfg: Config, run: Run, n: nat)
    requires cfg.perSecond >= 0.0 && IsRun(cfg, run) && n < |run.reqs|
    requires forall i :: 0 <= i < |run.reqs| && run.evictions[i].Some? ==>
               && run.evictions[i].value in run.tables[i]
               && Idle(cfg, run.tables[i][run.evictions[i].value], run.reqs[i].now)
    ensures run.answers[n] == UnboundedAnswer(cfg, run.reqs, n)
  {
    forall i: nat | i < |run.reqs| ensures FullWhenEvicted(cfg, run, i) {
      if run.evictions[i].Some? {
        TokensBounded(cfg, run, i);
        assert StepAt(cfg, run, i);
        IdleIsFull(cfg, run.tables[i][run.evictions[i].value], run.reqs[i].now);
      }
    }
    EvictionUnobservable(cfg, run, n);
  }

  // ----- And only then -----

  /** n checks of one bucket at the same instant are all allowed. */
  predicate AllAllowed(cfg: Config, b: BucketState, now: real, n: nat)
    decreases n
  {
    n == 0 || (Consumed(cfg, b, now).1 && AllAllowed(cfg, Consumed(cfg, b, now).0, now, n - 1))
  }

  lemma {:induction false} AllowedIffTokens(cfg: Config, b: BucketState, now: real, n: nat)
    requires cfg.perSecond >= 0.0 && WellFormed(cfg, b, now) && n > 0
    ensures AllAllowed(cfg, b, now, n) <==> Refilled(cfg, b, now) >= n as real
    decreases n
  {
    var c := Consumed(cfg, b, now);
    ConsumedWellFormed(cfg, b, now);
    if n > 1 {
      AllowedIffTokens(cfg, c.0, now, n - 1);
      assert Refilled(cfg, c.0, now) == c.0.tokens;
    } else {
      assert AllAllowed(cfg, c.0, now, 0);
    }
  }

  /** A burst of checks right after an eviction tells the evicted bucket from a fresh one
      exactly when it was not full. */
  lemma BurstTellsApart(cfg: Config, b: BucketState, now: real)
    requires cfg.perSecond >= 0.0 && WellFormed(cfg, b, now)
    ensures AllAllowed(cfg, Fresh(cfg, now), now, cfg.burst)
    ensures AllAllowed(cfg, b, now, cfg.burst) <==> Full(cfg, b, now)
  {
    ConsumedWellFormed(cfg, b, now);
    FreshIsFull(cfg, now, now);
    if cfg.burst > 0 {
      AllowedIffTokens(cfg, Fresh(cfg, now), now, cfg.burst);
      AllowedIffTokens(cfg, b, now, cfg.burst);
    }
  }

  lemma {:induction false} OldestExists(table: Table) returns (oldest: Ip)
    requires |table| > 0
    ensures Oldest(table, oldest)
    decreases |table|
  {
    var ip := AnyKey(table);
    var rest := table - {ip};
    assert rest.Keys == table.Keys - {ip};
    oldest := ip;
    if |rest| > 0 {
      var o := OldestExists(rest);
      oldest := if table[o].lastRefill < table[ip].lastRefill then o else ip;
    }
    assert forall other :: other in table ==> other == ip || other in rest;
  }

  lemma AnyKey(table: Table) returns (ip: Ip)
    requires |table| > 0
    ensures ip in table
  {
    assert table.Keys != {};
    ip :| ip in table.Keys;
  }

  ghost predicate Extends(longer: Run, run: Run) {
    run.reqs <= longer.reqs && run.tables <= longer.tables && run.answers <= longer.answers
  }

  /** Any run continues with any further requests that come no earlier. */
  lemma {:induction false} Continue(cfg: Config, run: Run, more: seq<Request>) returns (longer: Run)
    requires IsRun(cfg, run) && Clocked(run.reqs + more)
    ensures IsRun(cfg, longer) && Extends(longer, run) && longer.reqs == run.reqs + more
    decreases |more|
  {
    if more == [] {
      longer := run;
      assert run.reqs + more == run.reqs;
    } else {
      var q := more[0];
      assert run.reqs + more == run.reqs + [q] + more[1..];
      Earlier(run.reqs + [q], more[1..]);
      var one := ContinueOne(cfg, run, q);
      longer := Continue(cfg, one, more[1..]);
    }
  }

  lemma Earlier(a: seq<Request>, b: seq<Request>)
    requires Clocked(a + b)
    ensures Clocked(a)
  {
    forall i | 0 <= i < |a| ensures a[i].created <= a[i].now { assert (a + b)[i] == a[i]; }
    forall i, j | 0 <= i < j < |a| ensures a[i].now <= a[j].created {
      assert (a + b)[i] == a[i] && (a + b)[j] == a[j];
    }
  }

  lemma ContinueOne(cfg: Config, run: Run, q: Request) returns (longer: Run)
    requires IsRun(cfg, run) && Clocked(run.reqs + [q])
    ensures IsRun(cfg, longer) && Extends(longer, run) && longer.reqs == run.reqs + [q]
  {
    var n := |run.reqs|;
    var evicted := None;
    if AtCapacity(cfg, run.tables[n], q.ip) {
      var o := OldestExists(run.tables[n]);
      evicted := Some(o);
    }
    var a := Admit(cfg, Remaining(run.tables[n], evicted), q.ip, q.created, q.now);
    longer := Run(run.reqs + [q], run.tables + [a.0], run.evictions + [evicted], run.answers + [a.1]);
    forall m | 0 <= m < |longer.reqs| ensures StepAt(cfg, longer, m) {
      if m < n { assert StepAt(cfg, run, m); }
    }
  }

  ghost predicate Repeats(reqs: seq<Request>, n: nat, k: nat, ip: Ip, now: real)
    requires n + k <= |reqs|
  {
    forall m :: n <= m < n + k ==> reqs[m] == Request(ip, now, now)
  }

  /** k checks of one address at one instant, in a run and without bound. */
  lemma {:induction false} RepeatedAnswers(cfg: Config, run: Run, n: nat, k: nat, ip: Ip, now: real)
    requires IsRun(cfg, run) && n + k <= |run.reqs| && Repeats(run.reqs, n, k, ip, now)
    ensures var b := if ip in run.tables[n] then run.tables[n][ip] else Fresh(cfg, now);
            (forall m :: n <= m < n + k ==> run.answers[m]) <==> AllAllowed(cfg, b, now, k)
    decreases k
  {
    if k > 0 {
      assert StepAt(cfg, run, n);
      var rest := Remaining(run.tables[n], run.evictions[n]);
      assert ip in rest <==> ip in run.tables[n];
      RepeatedAnswers(cfg, run, n + 1, k - 1, ip, now);
    }
  }

  /** The bucket that a check at now would find without a bound. */
  function UnboundedBucket(cfg: Config, reqs: seq<Request>, n: nat, ip: Ip, now: real): BucketState
    requires n <= |reqs|
  {
    var u := UnboundedTable(cfg, reqs, n);
    if ip in u then u[ip] else Fresh(cfg, now)
  }

  lemma UnboundedStep(cfg: Config, reqs: seq<Request>, n: nat, ip: Ip, now: real)
    requires n < |reqs| && reqs[n] == Request(ip, now, now)
    ensures var b := UnboundedBucket(cfg, reqs, n, ip, now);
            && UnboundedAnswer(cfg, reqs, n) == Consumed(cfg, b, now).1
            && UnboundedBucket(cfg, reqs, n + 1, ip, now) == Consumed(cfg, b, now).0
  {
  }

  ghost predicate UnboundedAllows(cfg: Config, reqs: seq<Request>, n: nat, k: nat)
    requires n + k <= |reqs|
  {
    forall m :: n <= m < n + k ==> UnboundedAnswer(cfg, reqs, m)
  }

  lemma FirstAndRest(cfg: Config, reqs: seq<Request>, n: nat, k: nat)
    requires n + k <= |reqs| && k > 0
    ensures UnboundedAllows(cfg, reqs, n, k)
       <==> UnboundedAnswer(cfg, reqs, n) && UnboundedAllows(cfg, reqs, n + 1, k - 1)
  {
  }

  lemma {:induction false} RepeatedUnbounded(cfg: Config, reqs: seq<Request>, n: nat, k: nat, ip: Ip, now: real)
    requires n + k <= |reqs| && Repeats(reqs, n, k, ip, now)
    ensures UnboundedAllows(cfg, reqs, n, k) <==> AllAllowed(cfg, UnboundedBucket(cfg, reqs, n, ip, now), now, k)
    decreases k
  {
    if k > 0 {
      UnboundedStep(cfg, reqs, n, ip, now);
      RepeatedUnbounded(cfg, reqs, n + 1, k - 1, ip, now);
      FirstAndRest(cfg, reqs, n, k);
    }
  }

  lemma {:induction false} UnboundedPrefix(cfg: Config, a: seq<Request>, b: seq<Request>, n: nat)
    requires a <= b && n <= |a|
    ensures UnboundedTable(cfg, a, n) == UnboundedTable(cfg, b, n)
  {
    if n > 0 {
      UnboundedPrefix(cfg, a, b, n - 1);
    }
  }

  lemma {:induction false} UnboundedWellFormed(cfg: Config, reqs: seq<Request>, n: nat)
    requires cfg.perSecond >= 0.0 && Clocked(reqs) && n <= |reqs|
    ensures n > 0 ==> TableWellFormed(cfg, UnboundedTable(cfg, reqs, n), reqs[n - 1].now)
  {
    if n > 0 {
      UnboundedWellFormed(cfg, reqs, n - 1);
      var q, u := reqs[n - 1], UnboundedTable(cfg, reqs, n - 1);
      ConsumedWellFormed(cfg, if q.ip in u then u[q.ip] else Fresh(cfg, q.created), q.now);
    }
  }

  /** Once a bucket that is not full has been lost, some continuation gets a different answer. */
  lemma EvictionObservable(cfg: Config, run: Run, ip: Ip) returns (longer: Run, m: nat)
    requires cfg.perSecond >= 0.0 && IsRun(cfg, run) && |run.reqs| > 0
    requires var n := |run.reqs|;
             var u := UnboundedTable(cfg, run.reqs, n);
             ip !in run.tables[n] && ip in u && !Full(cfg, u[ip], ClockAt(run, n))
    ensures IsRun(cfg, longer) && Extends(longer, run) && m < |longer.reqs|
    ensures longer.answers[m] != UnboundedAnswer(cfg, longer.reqs, m)
  {
    var n, k := |run.reqs|, cfg.burst;
    var now, u := ClockAt(run, n), UnboundedTable(cfg, run.reqs, n);
    var more := seq(k, i => Request(ip, now, now));
    longer := Continue(cfg, run, more);
    UnboundedWellFormed(cfg, run.reqs, n);
    BurstTellsApart(cfg, u[ip], now);
    RepeatedAnswers(cfg, longer, n, k, ip, now);
    UnboundedPrefix(cfg, run.reqs, longer.reqs, n);
    RepeatedUnbounded(cfg, longer.reqs, n, k, ip, now);
    m :| n <= m < n + k && !UnboundedAnswer(cfg, longer.reqs, m);
  }

  /** The run up to its first n requests. */
  function Prefix(run: Run, n: nat): Run
    requires n <= |run.reqs| && |run.tables| == |run.reqs| + 1
    requires |run.evictions| == |run.reqs| && |run.answers| == |run.reqs|
  {
    Run(run.reqs[..n], run.tables[..n + 1], run.evictions[..n], run.answers[..n])
  }

  lemma PrefixIsRun(cfg: Config, run: Run, n: nat)
    requires IsRun(cfg, run) && n <= |run.reqs|
    ensures IsRun(cfg, Prefix(run, n))
  {
    var r := Prefix(run, n);
    forall i | 0 <= i < n ensures StepAt(cfg, r, i) {
      assert StepAt(cfg, run, i);
    }
  }

  /** Evicting a bucket leaves it, and only the unbounded table keeps it. */
  lemma LossStep(cfg: Config, table: Table, unbounded: Table, evicted: Ip, q: Request)
    requires Evicts(cfg, table, q.ip, Some(evicted))
    requires evicted in unbounded && unbounded[evicted] == table[evicted]
    ensures evicted in table && evicted != q.ip
    ensures var a := Admit(cfg, Remaining(table, Some(evicted)), q.ip, q.created, q.now).0;
            var u := Admit(cfg, unbounded, q.ip, q.created, q.now).0;
            evicted !in a && evicted in u && u[evicted] == table[evicted]
  {
  }

  /** The first eviction of a bucket that is not full shows: as soon as it has happened, some
      continuation gets an answer that an unbounded table would not give. */
  lemma FirstLossObservable(cfg: Config, run: Run, n: nat) returns (longer: Run, m: nat)
    requires cfg.perSecond >= 0.0 && IsRun(cfg, run) && n < |run.reqs|
    requires EvictsOnlyFull(cfg, Prefix(run, n)) && !FullWhenEvicted(cfg, run, n)
    ensures IsRun(cfg, longer) && Extends(longer, Prefix(run, n + 1)) && m < |longer.reqs|
    ensures longer.answers[m] != UnboundedAnswer(cfg, longer.reqs, m)
  {
    var after, lost := Prefix(run, n + 1), run.evictions[n].value;
    PrefixIsRun(cfg, run, n + 1);
    LostUnbounded(cfg, run, n, lost);
    longer, m := EvictionObservable(cfg, after, lost);
  }

  lemma LostUnbounded(cfg: Config, run: Run, n: nat, lost: Ip)
    requires cfg.perSecond >= 0.0 && IsRun(cfg, run) && n < |run.reqs| && run.evictions[n] == Some(lost)
    requires EvictsOnlyFull(cfg, Prefix(run, n))
    ensures lost in run.tables[n] && lost !in run.tables[n + 1]
    ensures var u := UnboundedTable(cfg, run.reqs[..n + 1], n + 1); lost in u && u[lost] == run.tables[n][lost]
  {
    var before := Prefix(run, n);
    PrefixIsRun(cfg, run, n);
    assert StepAt(cfg, run, n);
    RunCovers(cfg, before, n);
    var u := UnboundedTable(cfg, before.reqs, n);
    UnboundedPrefix(cfg, before.reqs, run.reqs[..n + 1], n);
    LossStep(cfg, run.tables[n], u, lost, run.reqs[n]);
  }

  // ----- The window bound -----

  /** How many of ip's checks among requests [i, j) were allowed. */
  function AllowedCount(run: Run, ip: Ip, i: nat, j: nat): nat
    requires i <= j <= |run.reqs| && |run.answers| == |run.reqs|
  {
    if i == j then 0 else
      AllowedCount(run, ip, i, j - 1) + if run.reqs[j - 1].ip == ip && run.answers[j - 1] then 1 else 0
  }

  ghost predicate NotEvicted(run: Run, ip: Ip, i: nat, j: nat)
    requires i <= j <= |run.reqs| && |run.evictions| == |run.reqs|
  {
    forall k :: i <= k < j ==> run.evictions[k] != Some(ip)
  }

  /** What has been spent since start, plus what is left, is covered by the burst and the refill. */
  ghost predicate WithinBudget(cfg: Config, table: Table, ip: Ip, count: nat, start: real) {
    if ip in table && table[ip].lastRefill >= start
    then count as real + table[ip].tokens <= cfg.burst as real + Gain(cfg, table[ip].lastRefill - start)
    else count == 0
  }

  lemma RefillWithin(cfg: Config, b: BucketState, now: real, start: real, count: nat)
    requires cfg.perSecond >= 0.0 && WellFormed(cfg, b, now) && start <= now
    requires if b.lastRefill >= start
             then count as real + b.tokens <= cfg.burst as real + Gain(cfg, b.lastRefill - start)
             else count == 0
    ensures var c := Consumed(cfg, b, now);
            (count + if c.1 then 1 else 0) as real + c.0.tokens <= cfg.burst as real + Gain(cfg, now - start)
  {
    GainSplits(cfg, 0.0, now - start);
    if b.lastRefill >= start {
      GainSplits(cfg, b.lastRefill - start, now - start);
      assert now - start - (b.lastRefill - start) == now - b.lastRefill;
    }
  }

  lemma StepBudget(cfg: Config, table: Table, evicted: Option<Ip>, q: Request, ip: Ip, count: nat, start: real)
    requires cfg.perSecond >= 0.0 && TableWellFormed(cfg, table, q.created) && q.created <= q.now && start <= q.now
    requires WithinBudget(cfg, table, ip, count, start) && evicted != Some(ip)
    ensures var a := Admit(cfg, Remaining(table, evicted), q.ip, q.created, q.now);
            WithinBudget(cfg, a.0, ip, count + if q.ip == ip && a.1 then 1 else 0, start)
  {
    var rest := Remaining(table, evicted);
    var after := Admit(cfg, rest, q.ip, q.created, q.now).0;
    if q.ip != ip {
      assert ip in after <==> ip in table;
      assert ip in table ==> after[ip] == table[ip];
    } else {
      OwnBudget(cfg, rest, q, count, start);
    }
  }

  lemma OwnBudget(cfg: Config, rest: Table, q: Request, count: nat, start: real)
    requires cfg.perSecond >= 0.0 && TableWellFormed(cfg, rest, q.created) && q.created <= q.now && start <= q.now
    requires WithinBudget(cfg, rest, q.ip, count, start)
    ensures var a := Admit(cfg, rest, q.ip, q.created, q.now);
            WithinBudget(cfg, a.0, q.ip, count + if a.1 then 1 else 0, start)
  {
    var b := if q.ip in rest then rest[q.ip] else Fresh(cfg, q.created);
    if q.ip in rest {
      RefillWithin(cfg, b, q.now, start, count);
    } else {
      RefillFresh(cfg, q, start);
    }
    var after := Admit(cfg, rest, q.ip, q.created, q.now).0;
    assert after[q.ip] == Consumed(cfg, b, q.now).0 && after[q.ip].lastRefill == q.now;
  }

  lemma RefillFresh(cfg: Config, q: Request, start: real)
    requires cfg.perSecond >= 0.0 && q.created <= q.now && start <= q.now
    ensures var c := Consumed(cfg, Fresh(cfg, q.created), q.now);
            (if c.1 then 1 else 0) as real + c.0.tokens <= cfg.burst as real + Gain(cfg, q.now - start)
  {
    GainSplits(cfg, 0.0, q.now - start);
  }

  lemma {:induction false} Budget(cfg: Config, run: Run, ip: Ip, i: nat, j: nat, start: real)
    requires cfg.perSecond >= 0.0 && IsRun(cfg, run) && i <= j <= |run.reqs| && NotEvicted(run, ip, i, j)
    requires forall k :: i <= k < j ==> start <= run.reqs[k].now
    requires forall k :: 0 <= k < i ==> run.reqs[k].now <= start
    ensures WithinBudget(cfg, run.tables[j], ip, AllowedCount(run, ip, i, j), start)
  {
    if i < j {
      Budget(cfg, run, ip, i, j - 1, start);
      TokensBounded(cfg, run, j - 1);
      assert StepAt(cfg, run, j - 1);
      StepBudget(cfg, run.tables[j - 1], run.evictions[j - 1], run.reqs[j - 1], ip, AllowedCount(run, ip, i,
              j - 1), start);
    } else {
      TokensBounded(cfg, run, j);
      assert j > 0 ==> ClockAt(run, j) <= start;
      GainSplits(cfg, 0.0, 0.0);
      if ip in run.tables[j] && run.tables[j][ip].lastRefill >= start {
        assert run.tables[j][ip].lastRefill - start == 0.0;
      }
    }
  }

  /** An address that is not evicted within a window is allowed at most burst checks plus the
      refill of the window's length. */
  lemma WindowBound(cfg: Config, run: Run, ip: Ip, i: nat, j: nat, start: real, end: real)
    requires cfg.perSecond >= 0.0 && IsRun(cfg, run) && i <= j <= |run.reqs| && NotEvicted(run, ip, i, j)
    requires forall k :: i <= k < j ==> start <= run.reqs[k].now <= end
    requires forall k :: 0 <= k < i ==> run.reqs[k].now <= start
    requires start <= end
    ensures AllowedCount(run, ip, i, j) as real <= cfg.burst as real + cfg.perSecond * (end - start)
  {
    Budget(cfg, run, ip, i, j, start);
    TokensBounded(cfg, run, j);
    assert j > 0 ==> ClockAt(run, j) <= end;
    WindowCloses(cfg, run.tables[j], ip, AllowedCount(run, ip, i, j), start, end);
    BoundInSeconds(cfg, AllowedCount(run, ip, i, j) as real, start, end);
  }

  lemma BoundInSeconds(cfg: Config, count: real, start: real, end: real)
    requires count <= cfg.burst as real + Gain(cfg, end - start)
    ensures count <= cfg.burst as real + cfg.perSecond * (end - start)
  {
  }

  lemma WindowCloses(cfg: Config, table: Table, ip: Ip, count: nat, start: real, end: real)
    requires cfg.perSecond >= 0.0 && start <= end && TableWellFormed(cfg, table, end)
    requires WithinBudget(cfg, table, ip, count, start)
    ensures count as real <= cfg.burst as real + Gain(cfg, end - start)
  {
    GainSplits(cfg, 0.0, end - start);
    if ip in table && table[ip].lastRefill >= start {
      GainSplits(cfg, table[ip].lastRefill - start, end - start);
    }
  }
}
