/** The per-client token bucket (internal/middleware/ratelimit.go). Time is in nanoseconds and never runs
    backwards; each call is one atomic step that reads the clock once. */
module RateLimit {
  const SECOND := 1_000_000_000

  datatype Config = Config(rate: int, burst: int, ttl: int)

  datatype Bucket = Bucket(tokens: int, lastFill: int, lastUsed: int)

  type Table = map<string, Bucket>

  function Min(a: int, b: int): int {
    if a < b then a else b
  }

  // Go's integer division truncates toward zero.
  function Quotient(a: int, d: int): int
    requires d > 0
  {
    if a >= 0 then a / d else -(-a / d)
  }

  /** The tokens that `elapsed` nanoseconds are worth: whole seconds times the rate per minute, truncated. */
  function Credit(cfg: Config, elapsed: int): int {
    Quotient(Quotient(elapsed, SECOND) * cfg.rate, 60)
  }

  // The fill time moves only when a whole token is credited.
  function Refilled(cfg: Config, b: Bucket, now: int): Bucket {
    var add := Credit(cfg, now - b.lastFill);
    if add > 0 then b.(tokens := Min(b.tokens + add, cfg.burst), lastFill := now) else b
  }

  function Decide(cfg: Config, b: Bucket, now: int): (Bucket, bool) {
    var r := Refilled(cfg, b, now);
    if r.tokens > 0 then (r.(tokens := r.tokens - 1, lastUsed := now), true) else (r, false)
  }

  function Found(cfg: Config, m: Table, key: string, now: int): Bucket {
    if key in m then m[key] else Bucket(cfg.burst, now, now)
  }

  function Allowed(cfg: Config, m: Table, key: string, now: int): (Table, bool) {
    var (b, ok) := Decide(cfg, Found(cfg, m, key, now), now);
    (m[key := b], ok)
  }

  function Left(cfg: Config, m: Table, key: string, now: int): int {
    if key in m then Refilled(cfg, m[key], now).tokens else cfg.burst
  }

  function Swept(cfg: Config, m: Table, now: int): Table {
    map key | key in m && now - m[key].lastUsed <= cfg.ttl :: m[key]
  }

  // ----- the limiter as the program keeps it -----

  class BucketCell {
    var tokens: int
    var lastFill: int
    var lastUsed: int

    constructor (tokens: int, now: int)
      ensures Value() == Bucket(tokens, now, now)
    {
      this.tokens, lastFill, lastUsed := tokens, now, now;
    }

    ghost function Value(): Bucket
      reads this
    {
      Bucket(tokens, lastFill, lastUsed)
    }

    // The part of Allow under the bucket's own lock
    method Take(cfg: Config, now: int) returns (ok: bool)
      modifies this
      ensures (Value(), ok) == Decide(cfg, old(Value()), now)
    {
      var add := Credit(cfg, now - lastFill);
      hide Credit;
      if add > 0 {
        tokens := Min(tokens + add, cfg.burst);
        lastFill := now;
      }
      ok := tokens > 0;
      if ok {
        tokens := tokens - 1;
        lastUsed := now;
      }
    }
  }

  class RateLimiter {
    const cfg: Config
    var buckets: map<string, BucketCell>

    constructor (cfg: Config)
      ensures this.cfg == cfg && Valid() && View() == map[]
    {
      this.cfg := cfg;
      buckets := map[];
    }

    /** No two keys share a bucket. */
    ghost predicate Valid()
      reads this
    {
      forall j, k :: j in buckets && k in buckets && buckets[j] == buckets[k] ==> j == k
    }

    ghost function View(): Table
      reads this, buckets.Values
    {
      map key | key in buckets :: buckets[key].Value()
    }

    method Allow(key: string, now: int) returns (ok: bool)
      requires Valid()
      modifies this`buckets, buckets.Values
      ensures Valid() && fresh(buckets.Values - old(buckets.Values))
      ensures (View(), ok) == Allowed(cfg, old(View()), key, now)
    {
      hide Decide;
      if key !in buckets {
        var cell := new BucketCell(cfg.burst, now);
        buckets := buckets[key := cell];
      }
      var b := buckets[key];
      ok := b.Take(cfg, now);
      assert View() == old(View())[key := b.Value()];
    }

    method GetRemaining(key: string, now: int) returns (k: int)
      requires Valid()
      ensures k == Left(cfg, View(), key, now)
    {
      if key !in buckets {
        return cfg.burst;
      }
      var b := buckets[key];
      var add := Credit(cfg, now - b.lastFill);
      hide Credit;
      if add > 0 {
        return Min(b.tokens + add, cfg.burst);
      }
      return b.tokens;
    }

    /** One tick of the cleanup loop. */
    method Cleanup(now: int)
      requires Valid()
      modifies this`buckets
      ensures Valid() && buckets.Values <= old(buckets.Values)
      ensures View() == Swept(cfg, old(View()), now)
    {
      var todo := buckets.Keys;
      while todo != {}
        invariant todo <= buckets.Keys <= old(buckets.Keys)
        invariant forall key <- buckets :: buckets[key] == old(buckets[key])
        invariant forall key <- old(buckets) ::
          key in buckets <==> key in todo || now - old(buckets[key].lastUsed) <= cfg.ttl
        decreases todo
      {
        var key :| key in todo;
        if now - buckets[key].lastUsed > cfg.ttl {
          buckets := map k | k in buckets && k != key :: buckets[k];
        }
        todo := todo - {key};
      }
    }
  }
}
