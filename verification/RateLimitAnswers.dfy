/** Exactly which checks are allowed, in terms of when the address was last checked, and exactly
    which addresses are evicted. */
module RateLimitAnswers {
  import opened Options
  import opened RateLimit
  import opened RateLimitRuns

  /** The last check of ip before request n. */
  function LastCheck(run: Run, ip: Ip, n: nat): (k: Option<nat>)
    requires n <= |run.reqs|
    ensures k.Some? ==> k.value < n && run.reqs[k.value].ip == ip
    ensures forall m :: (if k.Some? then k.value else -1) < m < n ==> run.reqs[m].ip != ip
  {
    if n == 0 then None else if run.reqs[n - 1].ip == ip then Some(n - 1) else LastCheck(run, ip, n - 1)
  }

  /** ip has been checked before n and not evicted since. */
  ghost predicate Known(run: Run, ip: Ip, n: nat)
    requires n <= |run.reqs| && |run.evictions| == |run.reqs|
  {
    var k := LastCheck(run, ip, n);
    k.Some? && NotEvicted(run, ip, k.value + 1, n)
  }

  /** The table holds exactly the addresses that are known, each as its last check left it. */
  lemma {:induction false} TableIff(cfg: Config, run: Run, ip: Ip, n: nat)
    requires IsRun(cfg, run) && n <= |run.reqs|
    ensures ip in run.tables[n] <==> Known(run, ip, n)
    ensures ip in run.tables[n] ==>
              var k := LastCheck(run, ip, n).value;
              ip in run.tables[k + 1] && run.tables[n][ip] == run.tables[k + 1][ip]
              && run.tables[n][ip].lastRefill == run.reqs[k].now
  {
    if n > 0 {
      TableIff(cfg, run, ip, n - 1);
      assert StepAt(cfg, run, n - 1);
      var q, rest := run.reqs[n - 1], Remaining(run.tables[n - 1], run.evictions[n - 1]);
      if q.ip != ip {
        assert ip in run.tables[n] <==> ip in rest;
        KnownStep(run, ip, n);
      }
    }
  }

  lemma KnownStep(run: Run, ip: Ip, n: nat)
    requires 0 < n <= |run.reqs| && |run.evictions| == |run.reqs| && run.reqs[n - 1].ip != ip
    ensures Known(run, ip, n) <==> Known(run, ip, n - 1) && run.evictions[n - 1] != Some(ip)
  {
    var k := LastCheck(run, ip, n);
    assert k == LastCheck(run, ip, n - 1);
    if k.Some? && NotEvicted(run, ip, k.value + 1, n - 1) && run.evictions[n - 1] != Some(ip) {
      assert NotEvicted(run, ip, k.value + 1, n);
    }
  }

  /** The tokens that a check finds: what the last one left plus the gain since, up to the burst;
      a whole burst for an address that is not known. */
  function Found(cfg: Config, run: Run, n: nat, gain: real): real
    requires n < |run.reqs| && |run.evictions| == |run.reqs| < |run.tables|
  {
    var q := run.reqs[n];
    if q.ip !in run.tables[n] then cfg.burst as real else
    var k := LastCheck(run, q.ip, n);
    if k.None? || q.ip !in run.tables[k.value + 1] then 0.0 else
    Topped(run.tables[k.value + 1][q.ip].tokens, gain, cfg.burst as real)
  }

  function Topped(tokens: real, gain: real, burst: real): (r: real)
    ensures tokens >= 0.0 ==> r >= gain || r == burst
  {
    if tokens + gain <= burst then tokens + gain else burst
  }

  /** The clock at an address's last check. */
  function LastTime(run: Run, ip: Ip, n: nat): real
    requires n <= |run.reqs|
  {
    var k := LastCheck(run, ip, n);
    if k.None? then 0.0 else run.reqs[k.value].now
  }

  /** In every run: a check is allowed if and only if it finds a token, with perSecond tokens gained
      for every second since the last check; and then it takes one. */
  lemma AllowedIff(cfg: Config, run: Run, n: nat)
    requires cfg.perSecond >= 0.0 && IsRun(cfg, run) && n < |run.reqs|
    ensures var q := run.reqs[n];
            var found := Found(cfg, run, n, cfg.perSecond * (q.now - LastTime(run, q.ip, n)));
            && (run.answers[n] <==> found >= 1.0)
            && q.ip in run.tables[n + 1]
            && run.tables[n + 1][q.ip] == BucketState(found - if run.answers[n] then 1.0 else 0.0, q.now)
  {
    var q := run.reqs[n];
    assert StepAt(cfg, run, n);
    TableIff(cfg, run, q.ip, n);
    FreshIsFull(cfg, q.created, q.now);
    if q.ip in run.tables[n] {
      var k := LastCheck(run, q.ip, n).value;
      assert run.reqs[k].now <= q.now;
      assert Elapsed(run.tables[n][q.ip], q.now) == q.now - run.reqs[k].now;
    }
  }

  /** With a burst of at least one, a check that comes 1/perSecond or more after the last is allowed;
      so is every first check and every check after an eviction. */
  lemma AllowedInTime(cfg: Config, run: Run, n: nat)
    requires cfg.perSecond >= 0.0 && cfg.burst >= 1 && IsRun(cfg, run) && n < |run.reqs|
    requires Known(run, run.reqs[n].ip, n)
         ==> cfg.perSecond * (run.reqs[n].now - LastTime(run, run.reqs[n].ip, n)) >= 1.0
    ensures run.answers[n]
  {
    var gain := cfg.perSecond * (run.reqs[n].now - LastTime(run, run.reqs[n].ip, n));
    AllowedIff(cfg, run, n);
    FoundInTime(cfg, run, n, gain);
  }

  lemma FoundInTime(cfg: Config, run: Run, n: nat, gain: real)
    requires cfg.perSecond >= 0.0 && cfg.burst >= 1 && IsRun(cfg, run) && n < |run.reqs|
    requires Known(run, run.reqs[n].ip, n) ==> gain >= 1.0
    ensures Found(cfg, run, n, gain) >= 1.0
  {
    var ip := run.reqs[n].ip;
    TableIff(cfg, run, ip, n);
    if ip in run.tables[n] { TokensNotNegative(cfg, run, ip, LastCheck(run, ip, n).value + 1); }
  }

  lemma TokensNotNegative(cfg: Config, run: Run, ip: Ip, n: nat)
    requires cfg.perSecond >= 0.0 && IsRun(cfg, run) && n <= |run.reqs| && ip in run.tables[n]
    ensures run.tables[n][ip].tokens >= 0.0
  {
    TokensBounded(cfg, run, n);
  }

  /** Which addresses are evicted: one only if the table is full and the address new, and then one
      whose last check is least recent. */
  lemma EvictedIff(cfg: Config, run: Run, n: nat)
    requires IsRun(cfg, run) && n < |run.reqs|
    ensures run.evictions[n].Some?
       <==> |run.tables[n]| >= cfg.maxEntries && |run.tables[n]| > 0 && !Known(run, run.reqs[n].ip, n)
    ensures run.evictions[n].Some? ==>
              var o := run.evictions[n].value;
              Known(run, o, n)
              && forall ip :: ip in run.tables[n] ==>
                   Known(run, ip, n)
                   && run.reqs[LastCheck(run, o, n).value].now <= run.reqs[LastCheck(run, ip, n).value].now
  {
    assert StepAt(cfg, run, n);
    TableIff(cfg, run, run.reqs[n].ip, n);
    if run.evictions[n].Some? {
      TableIff(cfg, run, run.evictions[n].value, n);
      forall ip | ip in run.tables[n]
        ensures Known(run, ip, n)
        ensures run.tables[n][ip].lastRefill == run.reqs[LastCheck(run, ip, n).value].now
      {
        TableIff(cfg, run, ip, n);
      }
    }
  }
}
