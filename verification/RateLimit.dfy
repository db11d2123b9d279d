/** The token-bucket rate limiter: one bucket per address, a bounded table, eviction of an
    oldest entry. Clock readings and the choice among equally old entries are explicit. */
module RateLimit {
  import opened Options

  type Ip = nat

  datatype Config = Config(burst: nat, perSecond: real, maxEntries: nat)

  datatype BucketState = BucketState(tokens: real, lastRefill: real)

  type Table = map<Ip, BucketState>

  function Min(a: real, b: real): real { if a <= b then a else b }

  function Max(a: nat, b: nat): nat { if a >= b then a else b }

  function Fresh(cfg: Config, now: real): BucketState {
    BucketState(cfg.burst as real, now)
  }

  /** The duration since an earlier reading; a reading that is not earlier counts as zero. */
  function Elapsed(b: BucketState, now: real): real {
    if now >= b.lastRefill then now - b.lastRefill else 0.0
  }

  /** Tokens gained in a span of time. */
  function Gain(cfg: Config, seconds: real): real {
    seconds * cfg.perSecond
  }

  function Refilled(cfg: Config, b: BucketState, now: real): real {
    Min(b.tokens + Gain(cfg, Elapsed(b, now)), cfg.burst as real)
  }

  function Consumed(cfg: Config, b: BucketState, now: real): (r: (BucketState, bool)) {
    var t := Refilled(cfg, b, now);
    if t >= 1.0 then (BucketState(t - 1.0, now), true) else (BucketState(t, now), false)
  }

  /** What one check does to the table once an eviction has taken place. */
  function Admit(cfg: Config, table: Table, ip: Ip, created: real, now: real): (r: (Table, bool)) {
    var b := if ip in table then table[ip] else Fresh(cfg, created);
    var c := Consumed(cfg, b, now);
    (table[ip := c.0], c.1)
  }

  predicate AtCapacity(cfg: Config, table: Table, ip: Ip) {
    |table| >= cfg.maxEntries && ip !in table && |table| > 0
  }

  predicate Oldest(table: Table, ip: Ip) {
    ip in table && forall other :: other in table ==> table[ip].lastRefill <= table[other].lastRefill
  }

  /** The entry removed is an oldest one, and one is removed only for want of room. */
  predicate Evicts(cfg: Config, table: Table, ip: Ip, evicted: Option<Ip>) {
    if AtCapacity(cfg, table, ip) then evicted.Some? && Oldest(table, evicted.value) else evicted.None?
  }

  function Remaining(table: Table, evicted: Option<Ip>): Table {
    if evicted.Some? then table - {evicted.value} else table
  }

  // ----- The limiter object -----

  class Bucket {
    var tokens: real
    var lastRefill: real

    constructor (burst: nat, now: real)
      ensures State() == BucketState(burst as real, now)
    {
      tokens, lastRefill := burst as real, now;
    }

    function State(): BucketState
      reads this
    {
      BucketState(tokens, lastRefill)
    }

    method TryConsume(cfg: Config, now: real) returns (ok: bool)
      modifies this
      ensures (State(), ok) == Consumed(cfg, old(State()), now)
    {
      var elapsed := if now >= lastRefill then now - lastRefill else 0.0;
      lastRefill := now;
      tokens := Min(tokens + elapsed * cfg.perSecond, cfg.burst as real);
      if tokens >= 1.0 {
        tokens := tokens - 1.0;
        return true;
      }
      return false;
    }
  }

  class RateLimiter {
    const config: Config
    var buckets: map<Ip, Bucket>

    ghost predicate Valid()
      reads this
    {
      forall i, j :: i in buckets && j in buckets && buckets[i] == buckets[j] ==> i == j
    }

    function Contents(): Table
      reads this, buckets.Values
    {
      map ip | ip in buckets :: buckets[ip].State()
    }

    constructor (config: Config)
      ensures Valid() && this.config == config && Contents() == map[]
    {
      this.config, buckets := config, map[];
    }

    /** min_by_key over the entries, in any order of iteration. */
    method FindOldest() returns (oldest: Option<Ip>)
      ensures oldest.Some? <==> buckets != map[]
      ensures oldest.Some? ==> Oldest(Contents(), oldest.value)
    {
      oldest := None;
      var rest := buckets.Keys;
      while rest != {}
        invariant rest <= buckets.Keys
        invariant oldest.None? ==> rest == buckets.Keys
        invariant oldest.Some? ==> oldest.value in buckets
        invariant oldest.Some? ==>
          forall ip :: ip in buckets && ip !in rest ==> buckets[oldest.value].lastRefill <= buckets[ip].lastRefill
        decreases rest
      {
        var ip :| ip in rest;
        if oldest.None? || buckets[ip].lastRefill < buckets[oldest.value].lastRefill {
          oldest := Some(ip);
        }
        rest := rest - {ip};
      }
    }

    /** Removes one entry. */
    method Evict(ip: Ip)
      requires Valid()
      modifies this`buckets
      ensures Valid() && buckets.Values <= old(buckets.Values)
      ensures Contents() == old(Contents()) - {ip}
    {
      buckets := buckets - {ip};
    }

    lemma SameSize()
      ensures |Contents()| == |buckets|
    {
      assert Contents().Keys == buckets.Keys;
    }

    /** Makes room for ip; ghost evicted names the entry removed. */
    method MakeRoom(ip: Ip) returns (ghost evicted: Option<Ip>)
      requires Valid()
      modifies this`buckets
      ensures Valid() && buckets.Values <= old(buckets.Values)
      ensures Evicts(config, old(Contents()), ip, evicted)
      ensures Contents() == Remaining(old(Contents()), evicted)
    {
      evicted := None;
      SameSize();
      if |buckets| >= config.maxEntries && ip !in buckets {
        var oldest := FindOldest();
        if oldest.Some? {
          Evict(oldest.value);
          evicted := oldest;
        }
      }
    }

    /** The entry for ip, created if need be, consumes a token; no other bucket is touched. */
    method Serve(ip: Ip, created: real, now: real) returns (allowed: bool)
      requires Valid()
      modifies this`buckets, buckets.Values
      ensures Valid() && fresh(buckets.Values - old(buckets.Values))
      ensures (Contents(), allowed) == Admit(config, old(Contents()), ip, created, now)
    {
      if ip !in buckets {
        var b := new Bucket(config.burst, created);
        buckets := buckets[ip := b];
      }
      label Created:
      allowed := buckets[ip].TryConsume(config, now);
      assert forall i :: i in buckets && i != ip ==> buckets[i].State() == old@Created(buckets[i].State());
      assert Contents() == old(Contents())[ip := buckets[ip].State()];
    }

    method Check(ip: Ip, created: real, now: real) returns (allowed: bool, ghost evicted: Option<Ip>)
      requires Valid()
      modifies this`buckets, buckets.Values
      ensures Valid() && fresh(buckets.Values - old(buckets.Values))
      ensures Evicts(config, old(Contents()), ip, evicted)
      ensures (Contents(), allowed) == Admit(config, Remaining(old(Contents()), evicted), ip, created, now)
    {
      evicted := MakeRoom(ip);
      allowed := Serve(ip, created, now);
    }
  }
}
