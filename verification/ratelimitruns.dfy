/** What the token bucket promises over whole runs: forgetting is invisible, admissions are bounded in every
    window, the remaining count is exact and Retry-After is honest. */
module RateLimitRuns {
  import opened RateLimit
  import opened Text

  /** The server always passes a rate and a burst of at least one, and a ticker needs a positive period. */
  predicate Sane(cfg: Config) {
    cfg.rate >= 1 && cfg.burst >= 1 && cfg.ttl >= 1
  }

  datatype Event =
    | Ask(now: int, key: string)    // Allow
    | Query(now: int, key: string)  // getRemaining
    | Tick(now: int)                // cleanup

  datatype Answer = Admit | Deny | Remain(k: int) | Silent

  function Answered(cfg: Config, m: Table, e: Event): Answer {
    match e
    case Ask(now, key) => if Allowed(cfg, m, key, now).1 then Admit else Deny
    case Query(now, key) => Remain(Left(cfg, m, key, now))
    case Tick(_) => Silent
  }

  // With `sweeping` false, cleanup does nothing.
  function After(cfg: Config, sweeping: bool, m: Table, e: Event): Table {
    match e
    case Ask(now, key) => Allowed(cfg, m, key, now).0
    case Query(_, _) => m
    case Tick(now) => if sweeping then Swept(cfg, m, now) else m
  }

  function Run(cfg: Config, sweeping: bool, m: Table, es: seq<Event>): Table {
    if es == [] then m else After(cfg, sweeping, Run(cfg, sweeping, m, es[..|es| - 1]), es[|es| - 1])
  }

  /** The answer to the i-th event of a run. */
  function Reply(cfg: Config, sweeping: bool, m: Table, es: seq<Event>, i: nat): Answer
    requires i < |es|
  {
    Answered(cfg, Run(cfg, sweeping, m, es[..i]), es[i])
  }

  predicate Ordered(from: int, es: seq<Event>) {
    (forall i :: 0 <= i < |es| ==> from <= es[i].now) &&
    forall i, j :: 0 <= i < j < |es| ==> es[i].now <= es[j].now
  }

  function Last(from: int, es: seq<Event>): int {
    if es == [] then from else es[|es| - 1].now
  }

  // ----- arithmetic of the credit -----

  lemma CreditMonotone(cfg: Config, a: int, b: int)
    requires Sane(cfg) && 0 <= a <= b
    ensures 0 <= Credit(cfg, a) <= Credit(cfg, b)
  {
    assert a / SECOND <= b / SECOND;
    assert 0 <= a / SECOND * cfg.rate <= b / SECOND * cfg.rate;
  }

  lemma NoTimeNoCredit(cfg: Config)
    ensures Credit(cfg, 0) == 0
  {
  }

  lemma SecondsBound(rate: int, elapsed: int, s: int)
    requires rate >= 1 && SECOND * s <= elapsed <= SECOND * s + SECOND
    ensures SECOND * (s * rate) <= rate * elapsed <= SECOND * (s * rate) + SECOND * rate
  {
    assert rate * (SECOND * s) <= rate * elapsed <= rate * (SECOND * s + SECOND);
    assert rate * (SECOND * s) == SECOND * (s * rate);
  }

  // A credit is never worth more than the time it is given for.
  lemma CreditBound(cfg: Config, elapsed: int)
    requires Sane(cfg) && 0 <= elapsed
    ensures 60 * SECOND * Credit(cfg, elapsed) <= cfg.rate * elapsed
    ensures Credit(cfg, elapsed) == 0 ==> cfg.rate * elapsed <= (59 + cfg.rate) * SECOND
  {
    var s := elapsed / SECOND;
    var c := s * cfg.rate / 60;
    assert 60 * c <= s * cfg.rate <= 60 * c + 59;
    SecondsBound(cfg.rate, elapsed, s);
  }

  /** What a wait is worth, for s whole seconds: as many tokens as sixtieths of s times the rate make up. */
  lemma CreditExactly(cfg: Config, elapsed: int, s: int)
    requires Sane(cfg) && 0 <= s && SECOND * s <= elapsed < SECOND * (s + 1)
    ensures 60 * Credit(cfg, elapsed) <= s * cfg.rate < 60 * (Credit(cfg, elapsed) + 1)
  {
    assert elapsed / SECOND == s;
    assert 0 <= s * cfg.rate;
  }

  // ----- every bucket of a reachable table is sound -----

  ghost predicate Sound(cfg: Config, b: Bucket, now: int) {
    0 <= b.tokens <= cfg.burst && b.lastFill <= b.lastUsed <= now
  }

  ghost predicate AllSound(cfg: Config, m: Table, now: int) {
    forall key <- m :: Sound(cfg, m[key], now)
  }

  lemma {:induction false} RunStaysSound(cfg: Config, sweeping: bool, from: int, m: Table, es: seq<Event>)
    requires Sane(cfg) && AllSound(cfg, m, from) && Ordered(from, es)
    ensures AllSound(cfg, Run(cfg, sweeping, m, es), Last(from, es))
    ensures from <= Last(from, es)
  {
    hide Credit;
    if es != [] {
      var n := |es| - 1;
      RunStaysSound(cfg, sweeping, from, m, es[..n]);
    }
  }

  /** Tokens always lie between 0 and the burst, and a refill never outlives the admission it leads to. */
  lemma TokensInRange(cfg: Config, sweeping: bool, from: int, es: seq<Event>, key: string)
    requires Sane(cfg) && Ordered(from, es)
    requires key in Run(cfg, sweeping, map[], es)
    ensures var b := Run(cfg, sweeping, map[], es)[key];
      0 <= b.tokens <= cfg.burst && b.lastFill <= b.lastUsed <= Last(from, es)
  {
    RunStaysSound(cfg, sweeping, from, map[], es);
  }

  // ----- getRemaining is exact -----

  // A second look at the same instant finds one token fewer.
  lemma SameInstant(cfg: Config, b: Bucket, now: int)
    requires Sane(cfg) && Sound(cfg, b, now)
    ensures var k, (b', ok) := Refilled(cfg, b, now).tokens, Decide(cfg, b, now);
      && (ok <==> k > 0)
      && Sound(cfg, b', now)
      && Refilled(cfg, b', now).tokens == if ok then k - 1 else 0
  {
    CreditMonotone(cfg, 0, now - b.lastFill);
    NoTimeNoCredit(cfg);
  }

  // One call is admitted exactly when a token is left, and leaves one fewer.
  lemma AskIsExact(cfg: Config, m: Table, key: string, now: int)
    requires Sane(cfg) && AllSound(cfg, m, now)
    ensures var k, (m', ok) := Left(cfg, m, key, now), Allowed(cfg, m, key, now);
      && (ok <==> k > 0)
      && AllSound(cfg, m', now)
      && Left(cfg, m', key, now) == if ok then k - 1 else 0
  {
    NoTimeNoCredit(cfg);
    SameInstant(cfg, Found(cfg, m, key, now), now);
  }

  // The table after n calls for one key at one instant
  function Repeated(cfg: Config, m: Table, key: string, now: int, n: nat): Table {
    if n == 0 then m else Allowed(cfg, Repeated(cfg, m, key, now, n - 1), key, now).0
  }

  lemma LeftInRange(cfg: Config, m: Table, key: string, now: int)
    requires Sane(cfg) && AllSound(cfg, m, now)
    ensures 0 <= Left(cfg, m, key, now) <= cfg.burst
  {
    if key in m {
      CreditMonotone(cfg, 0, now - m[key].lastFill);
    }
  }

  lemma {:induction false} RepeatedLeft(cfg: Config, m: Table, key: string, now: int, n: nat)
    requires Sane(cfg) && AllSound(cfg, m, now)
    ensures AllSound(cfg, Repeated(cfg, m, key, now, n), now)
    ensures var k := Left(cfg, m, key, now);
      Left(cfg, Repeated(cfg, m, key, now, n), key, now) == if n < k then k - n else 0
  {
    if n > 0 {
      RepeatedLeft(cfg, m, key, now, n - 1);
      AskIsExact(cfg, Repeated(cfg, m, key, now, n - 1), key, now);
    } else {
      LeftInRange(cfg, m, key, now);
    }
  }

  /** At any instant of any run, of the calls made for a key at that very instant exactly the first
      getRemaining(key) are admitted. */
  lemma RemainingIsExact(cfg: Config, sweeping: bool, from: int, es: seq<Event>, key: string, now: int, n: nat)
    requires Sane(cfg) && Ordered(from, es) && Last(from, es) <= now
    ensures var m := Run(cfg, sweeping, map[], es);
      Allowed(cfg, Repeated(cfg, m, key, now, n), key, now).1 <==> n < Left(cfg, m, key, now)
  {
    var m := Run(cfg, sweeping, map[], es);
    RunStaysSound(cfg, sweeping, from, map[], es);
    assert AllSound(cfg, m, now);
    RepeatedLeft(cfg, m, key, now, n);
    AskIsExact(cfg, Repeated(cfg, m, key, now, n), key, now);
  }

  // ----- eviction is invisible -----

  /** What the sweeping limiter has forgotten would be full again. */
  ghost predicate Alike(cfg: Config, swept: Table, full: Table, now: int) {
    && AllSound(cfg, full, now)
    && (forall key <- swept :: key in full && full[key] == swept[key])
    && (forall key <- full :: key in swept || now - full[key].lastFill > cfg.ttl)
  }

  /** An idle bucket has refilled by the time it can be evicted. */
  predicate RefillsBeforeEviction(cfg: Config) {
    Credit(cfg, cfg.ttl + 1) >= cfg.burst
  }

  lemma AlikeStep(cfg: Config, swept: Table, full: Table, before: int, e: Event)
    requires Sane(cfg) && RefillsBeforeEviction(cfg)
    requires Alike(cfg, swept, full, before) && before <= e.now
    ensures Answered(cfg, swept, e) == Answered(cfg, full, e)
    ensures Alike(cfg, After(cfg, true, swept, e), After(cfg, false, full, e), e.now)
  {
    hide Credit;
    if !e.Tick? && e.key in full {
      CreditMonotone(cfg, 0, e.now - full[e.key].lastFill);
      if e.key !in swept {
        CreditMonotone(cfg, cfg.ttl + 1, e.now - full[e.key].lastFill);
        assert Refilled(cfg, full[e.key], e.now).tokens == cfg.burst;
      }
    }
  }

  lemma {:induction false} RunsAlike(cfg: Config, from: int, es: seq<Event>)
    requires Sane(cfg) && RefillsBeforeEviction(cfg) && Ordered(from, es)
    ensures Alike(cfg, Run(cfg, true, map[], es), Run(cfg, false, map[], es), Last(from, es))
    ensures forall i :: 0 <= i < |es| ==> Reply(cfg, true, map[], es, i) == Reply(cfg, false, map[], es, i)
  {
    if es != [] {
      var n := |es| - 1;
      RunsAlike(cfg, from, es[..n]);
      AlikeStep(cfg, Run(cfg, true, map[], es[..n]), Run(cfg, false, map[], es[..n]), Last(from, es[..n]), es[n]);
      forall i | 0 <= i < |es| ensures Reply(cfg, true, map[], es, i) == Reply(cfg, false, map[], es, i) {
        if i < n {
          assert es[..n][..i] == es[..i];
          assert Reply(cfg, true, map[], es[..n], i) == Reply(cfg, false, map[], es[..n], i);
        }
      }
    }
  }

  // n calls for one key at one instant
  function Volley(now: int, key: string, n: nat): seq<Event> {
    seq(n, _ => Ask(now, key))
  }

  lemma {:induction false} RunVolley(cfg: Config, sweeping: bool, es: seq<Event>, now: int, key: string, n: nat)
    ensures Run(cfg, sweeping, map[], es + Volley(now, key, n))
      == Repeated(cfg, Run(cfg, sweeping, map[], es), key, now, n)
  {
    hide Credit;
    var all := es + Volley(now, key, n);
    if n == 0 {
      assert all == es;
    } else {
      assert all[..|all| - 1] == es + Volley(now, key, n - 1);
      RunVolley(cfg, sweeping, es, now, key, n - 1);
    }
  }

  lemma VolleyFront(es: seq<Event>, now: int, key: string, n: nat)
    requires n > 0
    ensures var all := es + Volley(now, key, n);
      all[..|all| - 1] == es + Volley(now, key, n - 1) && all[|all| - 1] == Ask(now, key)
  {
  }

  // Whether the last of n calls at one instant is admitted
  lemma LastOfVolley(cfg: Config, sweeping: bool, es: seq<Event>, now: int, key: string, n: nat)
    requires Sane(cfg) && n > 0 && AllSound(cfg, Run(cfg, sweeping, map[], es), now)
    ensures var all := es + Volley(now, key, n);
      Reply(cfg, sweeping, map[], all, |all| - 1) == Admit <==> n <= Left(cfg, Run(cfg, sweeping, map[], es), key, now)
  {
    hide Credit, Allowed, Left, Run, Repeated, Volley;
    var m := Run(cfg, sweeping, map[], es);
    VolleyFront(es, now, key, n);
    RunVolley(cfg, sweeping, es, now, key, n - 1);
    RepeatedLeft(cfg, m, key, now, n - 1);
    AskIsExact(cfg, Repeated(cfg, m, key, now, n - 1), key, now);
  }

  // A burst spent at time 0, then one tick just after the time to live
  function SpendAndWait(cfg: Config, key: string): seq<Event>
    requires Sane(cfg)
  {
    Volley(0, key, cfg.burst) + [Tick(cfg.ttl + 1)]
  }

  lemma {:induction false} DrainedBucket(cfg: Config, key: string, n: nat)
    requires Sane(cfg) && 1 <= n <= cfg.burst
    ensures Repeated(cfg, map[], key, 0, n) == map[key := Bucket(cfg.burst - n, 0, 0)]
  {
    if n > 1 {
      DrainedBucket(cfg, key, n - 1);
    } else {
      assert Repeated(cfg, map[], key, 0, 0) == map[];
    }
  }

  lemma SpentAndSwept(cfg: Config, key: string, sweeping: bool)
    requires Sane(cfg)
    ensures Run(cfg, sweeping, map[], SpendAndWait(cfg, key)) == if sweeping then map[] else map[key := Bucket(0, 0, 0)]
  {
    var wait := SpendAndWait(cfg, key);
    assert wait[..|wait| - 1] == [] + Volley(0, key, cfg.burst);
    RunVolley(cfg, sweeping, [], 0, key, cfg.burst);
    DrainedBucket(cfg, key, cfg.burst);
  }

  // When an idle bucket can be evicted too early, spending a burst, waiting and spending a burst again tells:
  // the last call is admitted exactly by the limiter that swept.
  function Telltale(cfg: Config): (es: seq<Event>)
    requires Sane(cfg)
    ensures Ordered(0, es) && es != []
  {
    SpendAndWait(cfg, "client") + Volley(cfg.ttl + 1, "client", cfg.burst)
  }

  lemma EvictionShows(cfg: Config, sweeping: bool)
    requires Sane(cfg) && !RefillsBeforeEviction(cfg)
    ensures Reply(cfg, sweeping, map[], Telltale(cfg), |Telltale(cfg)| - 1) == Admit <==> sweeping
  {
    hide Credit;
    CreditMonotone(cfg, 0, cfg.ttl + 1);
    SpentAndSwept(cfg, "client", sweeping);
    LastOfVolley(cfg, sweeping, SpendAndWait(cfg, "client"), cfg.ttl + 1, "client", cfg.burst);
  }

  /** A limiter that forgets idle buckets and one that never does give the same answers on every run exactly when
      a bucket idle for longer than the time to live is worth a full burst. */
  lemma EvictionIsInvisible(cfg: Config)
    requires Sane(cfg)
    ensures RefillsBeforeEviction(cfg) <==>
      forall from, es, i :: Ordered(from, es) && 0 <= i < |es| ==>
        Reply(cfg, true, map[], es, i) == Reply(cfg, false, map[], es, i)
  {
    if RefillsBeforeEviction(cfg) {
      forall from, es, i | Ordered(from, es) && 0 <= i < |es|
        ensures Reply(cfg, true, map[], es, i) == Reply(cfg, false, map[], es, i)
      {
        RunsAlike(cfg, from, es);
      }
    } else {
      var es := Telltale(cfg);
      EvictionShows(cfg, true);
      EvictionShows(cfg, false);
      assert Ordered(0, es) && Reply(cfg, true, map[], es, |es| - 1) != Reply(cfg, false, map[], es, |es| - 1);
    }
  }

  // ----- admissions in a window -----

  /** How many calls for `key` a run without eviction admits. */
  function Admits(cfg: Config, m: Table, es: seq<Event>, key: string): nat {
    if es == [] then 0 else
    var n := |es| - 1;
    Admits(cfg, m, es[..n], key) +
    if es[n].Ask? && es[n].key == key && Reply(cfg, false, m, es, n) == Admit then 1 else 0
  }

  /** `a` admissions since `start` fit the budget: before the first refill in the window they come out of the
      tokens the window began with, afterwards out of elapsed time plus `slack`. */
  ghost predicate Budget(cfg: Config, m: Table, key: string, start: int, a: nat, slack: int) {
    if key !in m then a == 0
    else
      var b := m[key];
      if b.lastFill < start then
        && slack > 0
        && a + b.tokens <= cfg.burst
        && (a > 0 ==> cfg.rate * (start - b.lastFill) <= slack)
      else 60 * SECOND * (a + b.tokens - cfg.burst) <= cfg.rate * (b.lastFill - start) + slack
  }

  lemma Distribute(r: int, x: int, y: int)
    requires r >= 1
    ensures r * (x + y) == r * x + r * y
    ensures x >= 0 ==> r * x >= 0
  {
  }

  // The slack of a window that a bucket from before may enter
  function WindowSlack(cfg: Config): int {
    (59 + cfg.rate) * SECOND
  }

  // Refilling is paid for by the time since the fill before it.
  lemma BudgetRefill(cfg: Config, b: Bucket, start: int, a: nat, slack: int, now: int)
    requires Sane(cfg) && Sound(cfg, b, now) && start <= now && slack >= 0
    requires Budget(cfg, map["" := b], "", start, a, slack) && Credit(cfg, now - b.lastFill) > 0
    ensures 60 * SECOND * (a + Refilled(cfg, b, now).tokens - cfg.burst) <= cfg.rate * (now - start) + slack
  {
    var add := Credit(cfg, now - b.lastFill);
    CreditBound(cfg, now - b.lastFill);
    hide Credit;
    Distribute(cfg.rate, now - start, start - b.lastFill);
    Distribute(cfg.rate, now - b.lastFill, b.lastFill - start);
  }

  // Without a refill, little time can have passed since the last one.
  lemma BudgetNoRefill(cfg: Config, b: Bucket, start: int, slack: int, now: int)
    requires Sane(cfg) && Sound(cfg, b, now) && start <= now && slack >= WindowSlack(cfg)
    requires Credit(cfg, now - b.lastFill) <= 0
    ensures cfg.rate * (start - b.lastFill) <= slack
  {
    CreditMonotone(cfg, 0, now - b.lastFill);
    CreditBound(cfg, now - b.lastFill);
    hide Credit;
    Distribute(cfg.rate, now - start, start - b.lastFill);
  }

  lemma BudgetStep(cfg: Config, m: Table, key: string, start: int, a: nat, slack: int, before: int, now: int)
    requires Sane(cfg) && AllSound(cfg, m, before) && before <= now && start <= now
    requires slack == 0 || slack >= WindowSlack(cfg)
    requires Budget(cfg, m, key, start, a, slack)
    ensures var (m', ok) := Allowed(cfg, m, key, now);
      Budget(cfg, m', key, start, if ok then a + 1 else a, slack)
  {
    if key in m {
      var b := m[key];
      if Credit(cfg, now - b.lastFill) > 0 {
        BudgetRefill(cfg, b, start, a, slack, now);
      } else if slack > 0 {
        BudgetNoRefill(cfg, b, start, slack, now);
      }
    }
    NoTimeNoCredit(cfg);
    hide Credit, WindowSlack;
  }

  // Other events leave the bucket of a key alone.
  lemma OtherEvent(cfg: Config, m: Table, e: Event, key: string)
    requires !(e.Ask? && e.key == key)
    ensures var m' := After(cfg, false, m, e); (key in m' <==> key in m) && (key in m ==> m'[key] == m[key])
  {
    hide Decide;
  }

  lemma {:induction false} RunInBudget(cfg: Config, m: Table, start: int, es: seq<Event>, key: string, slack: int)
    requires Sane(cfg) && AllSound(cfg, m, start) && Ordered(start, es)
    requires slack >= WindowSlack(cfg) || (slack == 0 && key !in m)
    ensures Budget(cfg, Run(cfg, false, m, es), key, start, Admits(cfg, m, es, key), slack)
  {
    hide Credit, Allowed;
    if es != [] {
      var n := |es| - 1;
      var m' := Run(cfg, false, m, es[..n]);
      RunInBudget(cfg, m, start, es[..n], key, slack);
      RunStaysSound(cfg, false, start, m, es[..n]);
      if es[n].Ask? && es[n].key == key {
        BudgetStep(cfg, m', key, start, Admits(cfg, m, es[..n], key), slack, Last(start, es[..n]), es[n].now);
      } else {
        OtherEvent(cfg, m', es[n], key);
      }
    }
  }

  lemma SpendBudget(cfg: Config, m: Table, key: string, start: int, a: nat, slack: int, end: int)
    requires Sane(cfg) && AllSound(cfg, m, end) && start <= end && slack >= 0
    requires Budget(cfg, m, key, start, a, slack)
    ensures 60 * SECOND * (a - cfg.burst) <= cfg.rate * (end - start) + slack
  {
    if key in m {
      var b := m[key];
      Distribute(cfg.rate, b.lastFill - start, end - b.lastFill);
    }
    Distribute(cfg.rate, end - start, 0);
  }

  /** Any window of D nanoseconds, anywhere in a run without eviction: the admissions beyond one burst are paid for
      by the time D, up to one second and 59/60 of a token lost to truncation. */
  lemma WindowBound(cfg: Config, from: int, past: seq<Event>, start: int, window: seq<Event>, D: int, key: string)
    requires Sane(cfg) && Ordered(from, past) && Last(from, past) <= start
    requires Ordered(start, window) && Last(start, window) <= start + D
    ensures var a := Admits(cfg, Run(cfg, false, map[], past), window, key);
      60 * SECOND * (a - cfg.burst) <= cfg.rate * (D + SECOND) + 59 * SECOND
  {
    var m := Run(cfg, false, map[], past);
    RunStaysSound(cfg, false, from, map[], past);
    assert AllSound(cfg, m, start);
    var slack := WindowSlack(cfg);
    RunInBudget(cfg, m, start, window, key, slack);
    RunStaysSound(cfg, false, start, m, window);
    var m' := Run(cfg, false, m, window);
    SpendBudget(cfg, m', key, start, Admits(cfg, m, window, key), slack, start + D);
    Distribute(cfg.rate, D, SECOND);
  }

  /** From the first call for a key the bound has no slack at all. */
  lemma CreationBound(cfg: Config, from: int, past: seq<Event>, start: int, es: seq<Event>, key: string)
    requires Sane(cfg) && Ordered(from, past) && Last(from, past) <= start && Ordered(start, es)
    requires key !in Run(cfg, false, map[], past) && key in Run(cfg, false, Run(cfg, false, map[], past), es)
    ensures var m := Run(cfg, false, map[], past);
      var b := Run(cfg, false, m, es)[key];
      60 * SECOND * (Admits(cfg, m, es, key) + b.tokens - cfg.burst) <= cfg.rate * (b.lastFill - start)
  {
    RunStaysSound(cfg, false, from, map[], past);
    assert AllSound(cfg, Run(cfg, false, map[], past), start);
    RunInBudget(cfg, Run(cfg, false, map[], past), start, es, key, 0);
  }

  // ----- which calls are admitted, exactly -----

  /** When the bucket of a key was last filled: at its first call, and then at every call that finds the time since
      worth a token, whether the call is admitted or not. */
  function Mark(cfg: Config, es: seq<Event>, key: string): Option<int> {
    if es == [] then None
    else
      var (before, e) := (Mark(cfg, es[..|es| - 1], key), es[|es| - 1]);
      if !(e.Ask? && e.key == key) then before
      else if before.Some? && Credit(cfg, e.now - before.value) <= 0 then before
      else Some(e.now)
  }

  /** What the waits between those times were worth. */
  function Earned(cfg: Config, es: seq<Event>, key: string): int {
    if es == [] then 0
    else
      var (before, e) := (Mark(cfg, es[..|es| - 1], key), es[|es| - 1]);
      Earned(cfg, es[..|es| - 1], key) +
      if e.Ask? && e.key == key && before.Some? then Credit(cfg, e.now - before.value) else 0
  }

  predicate AsksAt(es: seq<Event>, key: string, k: int) {
    0 <= k < |es| && es[k].Ask? && es[k].key == key
  }

  /** What a full bucket just before call k would hold after the run, were it never full again. */
  function Room(cfg: Config, es: seq<Event>, key: string, k: nat): int
    requires k < |es|
  {
    cfg.burst + Earned(cfg, es, key) - Earned(cfg, es[..k + 1], key)
      - (Admits(cfg, map[], es, key) - Admits(cfg, map[], es[..k], key))
  }

  /** t is the least of these. */
  ghost predicate LeastRoom(cfg: Config, es: seq<Event>, key: string, t: int) {
    && (forall k :: AsksAt(es, key, k) ==> t <= Room(cfg, es, key, k))
    && (exists k :: AsksAt(es, key, k) && t == Room(cfg, es, key, k))
  }

  lemma RoomStep(cfg: Config, es: seq<Event>, key: string, k: nat)
    requires es != [] && k < |es|
    ensures var n := |es| - 1;
      var c := Earned(cfg, es, key) - Earned(cfg, es[..n], key);
      var a := Admits(cfg, map[], es, key) - Admits(cfg, map[], es[..n], key);
      Room(cfg, es, key, k) == if k == n then cfg.burst - a else Room(cfg, es[..n], key, k) + c - a
  {
    var n := |es| - 1;
    hide Earned, Admits;
    if k == n {
      assert es[..k + 1] == es;
    } else {
      assert es[..n][..k] == es[..k] && es[..n][..k + 1] == es[..k + 1];
    }
  }

  // The first call for a key
  lemma FirstCallLedger(cfg: Config, es: seq<Event>, key: string)
    requires Sane(cfg) && es != [] && es[|es| - 1].Ask? && es[|es| - 1].key == key
    requires var n := |es| - 1;
      key !in Run(cfg, false, map[], es[..n]) && Mark(cfg, es[..n], key).None? && forall k :: !AsksAt(es[..n], key, k)
    ensures var b := Run(cfg, false, map[], es)[key];
      b.lastFill == es[|es| - 1].now && LeastRoom(cfg, es, key, b.tokens)
  {
    var n := |es| - 1;
    NoTimeNoCredit(cfg);
    RoomStep(cfg, es, key, n);
    assert forall k :: AsksAt(es, key, k) ==> k == n || AsksAt(es[..n], key, k);
    assert AsksAt(es, key, n);
    hide Credit, Room;
  }

  lemma CallBucket(cfg: Config, b: Bucket, now: int)
    requires Sane(cfg) && Sound(cfg, b, now)
    ensures var (c, (b', ok)) := (Credit(cfg, now - b.lastFill), Decide(cfg, b, now));
      && c >= 0 && b'.tokens == Min(b.tokens + c, cfg.burst) - (if ok then 1 else 0)
      && (ok <==> Min(b.tokens + c, cfg.burst) > 0) && b'.lastFill == if c > 0 then now else b.lastFill
  {
    CreditMonotone(cfg, 0, now - b.lastFill);
    NoTimeNoCredit(cfg);
    hide Credit;
  }

  lemma CallBooks(cfg: Config, es: seq<Event>, key: string, b: Bucket)
    requires es != [] && es[|es| - 1].Ask? && es[|es| - 1].key == key
    requires var m := Run(cfg, false, map[], es[..|es| - 1]); key in m && m[key] == b
    requires Mark(cfg, es[..|es| - 1], key) == Some(b.lastFill)
    ensures var (n, now) := (|es| - 1, es[|es| - 1].now);
      && key in Run(cfg, false, map[], es)
      && Run(cfg, false, map[], es)[key] == Decide(cfg, b, now).0
      && Admits(cfg, map[], es, key) - Admits(cfg, map[], es[..n], key) == (if Decide(cfg, b, now).1 then 1 else 0)
      && Earned(cfg, es, key) - Earned(cfg, es[..n], key) == Credit(cfg, now - b.lastFill)
  {
    hide Credit, Decide, Mark;
  }

  // A later call, with what it adds to the books
  lemma CallLedger(cfg: Config, es: seq<Event>, key: string, b: Bucket)
    requires Sane(cfg) && es != [] && es[|es| - 1].Ask? && es[|es| - 1].key == key
    requires var (n, now) := (|es| - 1, es[|es| - 1].now);
      && key in Run(cfg, false, map[], es[..n]) && Run(cfg, false, map[], es[..n])[key] == b
      && Sound(cfg, b, now) && Mark(cfg, es[..n], key) == Some(b.lastFill)
    ensures var (n, now) := (|es| - 1, es[|es| - 1].now);
      var (b', a) := (Run(cfg, false, map[], es)[key], Admits(cfg, map[], es, key) - Admits(cfg, map[], es[..n], key));
      var c := Earned(cfg, es, key) - Earned(cfg, es[..n], key);
      && c == Credit(cfg, now - b.lastFill) >= 0
      && b'.tokens == Min(b.tokens + c, cfg.burst) - a && b'.lastFill == (if c > 0 then now else b.lastFill)
      && (a == 1 || a == 0) && (a == 1 <==> Min(b.tokens + c, cfg.burst) > 0)
  {
    hide Credit, Decide, Run, Admits, Earned, Mark;
    CallBucket(cfg, b, es[|es| - 1].now);
    CallBooks(cfg, es, key, b);
  }

  lemma LeastRoomStep(cfg: Config, es: seq<Event>, key: string, t: int, c: int, a: int)
    requires es != [] && AsksAt(es, key, |es| - 1) && LeastRoom(cfg, es[..|es| - 1], key, t)
    requires c == Earned(cfg, es, key) - Earned(cfg, es[..|es| - 1], key)
    requires a == Admits(cfg, map[], es, key) - Admits(cfg, map[], es[..|es| - 1], key)
    ensures LeastRoom(cfg, es, key, Min(t + c, cfg.burst) - a)
  {
    hide Earned, Admits;
    var n := |es| - 1;
    forall k | AsksAt(es, key, k) ensures Min(t + c, cfg.burst) - a <= Room(cfg, es, key, k) {
      RoomStep(cfg, es, key, k);
      assert k < n ==> AsksAt(es[..n], key, k);
    }
    RoomStep(cfg, es, key, n);
    if t + c < cfg.burst {
      var k :| AsksAt(es[..n], key, k) && t == Room(cfg, es[..n], key, k);
      RoomStep(cfg, es, key, k);
      assert AsksAt(es, key, k);
    }
  }

  lemma OtherLedger(cfg: Config, es: seq<Event>, key: string, t: int)
    requires es != [] && !AsksAt(es, key, |es| - 1) && LeastRoom(cfg, es[..|es| - 1], key, t)
    ensures LeastRoom(cfg, es, key, t)
  {
    var n := |es| - 1;
    assert Earned(cfg, es, key) == Earned(cfg, es[..n], key);
    assert Admits(cfg, map[], es, key) == Admits(cfg, map[], es[..n], key);
    hide Earned, Admits;
    forall k | AsksAt(es, key, k) ensures t <= Room(cfg, es, key, k) {
      RoomStep(cfg, es, key, k);
      assert AsksAt(es[..n], key, k);
    }
    var k :| AsksAt(es[..n], key, k) && t == Room(cfg, es[..n], key, k);
    RoomStep(cfg, es, key, k);
    assert AsksAt(es, key, k);
  }

  /** After every run without eviction the bucket of a key was last filled at the mark, and holds the least room any of
      the calls leaves. */
  lemma {:induction false} Ledger(cfg: Config, from: int, es: seq<Event>, key: string)
    requires Sane(cfg) && Ordered(from, es)
    ensures var m := Run(cfg, false, map[], es);
      if key in m then Mark(cfg, es, key) == Some(m[key].lastFill) && LeastRoom(cfg, es, key, m[key].tokens)
      else Mark(cfg, es, key).None? && forall k :: !AsksAt(es, key, k)
  {
    hide Credit, LeastRoom, Earned, Admits;
    if es != [] {
      var n := |es| - 1;
      var m, e := Run(cfg, false, map[], es[..n]), es[n];
      Ledger(cfg, from, es[..n], key);
      RunStaysSound(cfg, false, from, map[], es[..n]);
      if AsksAt(es, key, n) {
        if key in m {
          CallLedger(cfg, es, key, m[key]);
          LeastRoomStep(cfg, es, key, m[key].tokens, Earned(cfg, es, key) - Earned(cfg, es[..n], key),
                        Admits(cfg, map[], es, key) - Admits(cfg, map[], es[..n], key));
        } else {
          FirstCallLedger(cfg, es, key);
        }
      } else {
        OtherEvent(cfg, m, e, key);
        if key in m {
          OtherLedger(cfg, es, key, m[key].tokens);
        } else {
          assert forall k :: AsksAt(es, key, k) ==> AsksAt(es[..n], key, k);
        }
      }
    }
  }

  lemma NextEarned(cfg: Config, es: seq<Event>, key: string, now: int)
    ensures Earned(cfg, es + [Ask(now, key)], key) == Earned(cfg, es, key)
      + if Mark(cfg, es, key).Some? then Credit(cfg, now - Mark(cfg, es, key).value) else 0
  {
    hide Credit, Mark;
    var all := es + [Ask(now, key)];
    assert all[..|all| - 1] == es;
  }

  /** A call is admitted if and only if, back to each of the calls before it, fewer were admitted than a burst and what
      was earned since that call make up. */
  lemma AdmittedExactly(cfg: Config, from: int, es: seq<Event>, key: string, now: int)
    requires Sane(cfg) && Ordered(from, es) && Last(from, es) <= now
    ensures Allowed(cfg, Run(cfg, false, map[], es), key, now).1 <==>
      forall k :: AsksAt(es, key, k) ==>
        Admits(cfg, map[], es, key) - Admits(cfg, map[], es[..k], key)
          < cfg.burst + Earned(cfg, es + [Ask(now, key)], key) - Earned(cfg, es[..k + 1], key)
  {
    hide Credit, Earned, Admits, Run, Mark;
    var m, all := Run(cfg, false, map[], es), es + [Ask(now, key)];
    Ledger(cfg, from, es, key);
    RunStaysSound(cfg, false, from, map[], es);
    NextEarned(cfg, es, key, now);
    if key in m {
      var c := Credit(cfg, now - m[key].lastFill);
      CreditMonotone(cfg, 0, now - m[key].lastFill);
      assert Allowed(cfg, m, key, now).1 <==> m[key].tokens + c > 0;
      hide Allowed;
      assert forall k :: AsksAt(es, key, k) ==> m[key].tokens <= Room(cfg, es, key, k);
    } else {
      NoTimeNoCredit(cfg);
    }
  }

  // ----- the bound is reached -----

  // A drained bucket after a wait worth `c` tokens, and n calls
  lemma {:induction false} DrainedAgain(cfg: Config, key: string, at: int, gap: int, n: nat)
    requires Sane(cfg) && 1 <= n <= Credit(cfg, gap) <= cfg.burst
    ensures Repeated(cfg, map[key := Bucket(0, at, at)], key, at + gap, n)
      == map[key := Bucket(Credit(cfg, gap) - n, at + gap, at + gap)]
  {
    NoTimeNoCredit(cfg);
    var m := map[key := Bucket(0, at, at)];
    assert at + gap - at == gap;
    hide Credit;
    if n > 1 {
      DrainedAgain(cfg, key, at, gap, n - 1);
    } else {
      assert Repeated(cfg, m, key, at + gap, 0) == m;
    }
  }

  lemma {:induction false} VolleyAdmitted(cfg: Config, es: seq<Event>, now: int, key: string, n: nat)
    requires Sane(cfg) && AllSound(cfg, Run(cfg, false, map[], es), now)
    requires n <= Left(cfg, Run(cfg, false, map[], es), key, now)
    ensures Admits(cfg, map[], es + Volley(now, key, n), key) == Admits(cfg, map[], es, key) + n
  {
    if n == 0 {
      assert es + Volley(now, key, 0) == es;
    } else {
      VolleyFront(es, now, key, n);
      LastOfVolley(cfg, false, es, now, key, n);
      VolleyAdmitted(cfg, es, now, key, n - 1);
      hide Left, Reply, Run, Volley;
    }
  }

  // A burst at time 0, and after every gap as many calls as it is worth
  function Waves(cfg: Config, key: string, gap: int, k: nat): seq<Event>
    requires Sane(cfg) && gap > 0
  {
    if k == 0 then Volley(0, key, cfg.burst)
    else
      CreditMonotone(cfg, 0, gap);
      Waves(cfg, key, gap, k - 1) + Volley(k * gap, key, Credit(cfg, gap))
  }

  lemma {:induction false} WavesOrdered(cfg: Config, key: string, gap: int, k: nat)
    requires Sane(cfg) && gap > 0
    ensures Ordered(0, Waves(cfg, key, gap, k)) && Last(0, Waves(cfg, key, gap, k)) <= k * gap
    ensures forall e <- Waves(cfg, key, gap, k) :: e.now <= k * gap
  {
    hide Credit;
    if k > 0 {
      WavesOrdered(cfg, key, gap, k - 1);
      CreditMonotone(cfg, 0, gap);
      assert 0 <= (k - 1) * gap <= k * gap;
      var es := Waves(cfg, key, gap, k - 1);
      assert forall i :: 0 <= i < |es| ==> es[i] in es;
    }
  }

  lemma FirstWave(cfg: Config, key: string)
    requires Sane(cfg)
    ensures Run(cfg, false, map[], Volley(0, key, cfg.burst)) == map[key := Bucket(0, 0, 0)]
    ensures Admits(cfg, map[], Volley(0, key, cfg.burst), key) == cfg.burst
  {
    assert [] + Volley(0, key, cfg.burst) == Volley(0, key, cfg.burst);
    assert Run(cfg, false, map[], []) == map[] && Admits(cfg, map[], [], key) == 0;
    RunVolley(cfg, false, [], 0, key, cfg.burst);
    DrainedBucket(cfg, key, cfg.burst);
    VolleyAdmitted(cfg, [], 0, key, cfg.burst);
  }

  lemma LeftAfterGap(cfg: Config, key: string, at: int, gap: int)
    requires 1 <= Credit(cfg, gap) <= cfg.burst
    ensures Left(cfg, map[key := Bucket(0, at, at)], key, at + gap) == Credit(cfg, gap)
  {
    assert at + gap - at == gap;
    hide Credit;
  }

  // One more wave on a drained bucket
  lemma NextWave(cfg: Config, es: seq<Event>, key: string, at: int, gap: int)
    requires Sane(cfg) && gap > 0 && 1 <= Credit(cfg, gap) <= cfg.burst
    requires Run(cfg, false, map[], es) == map[key := Bucket(0, at, at)]
    ensures var all := es + Volley(at + gap, key, Credit(cfg, gap));
      && Run(cfg, false, map[], all) == map[key := Bucket(0, at + gap, at + gap)]
      && Admits(cfg, map[], all, key) == Admits(cfg, map[], es, key) + Credit(cfg, gap)
  {
    hide Credit, Repeated, Run, Admits, Left, Volley;
    var c := Credit(cfg, gap);
    RunVolley(cfg, false, es, at + gap, key, c);
    DrainedAgain(cfg, key, at, gap, c);
    LeftAfterGap(cfg, key, at, gap);
    VolleyAdmitted(cfg, es, at + gap, key, c);
  }

  lemma OneMore(k: int, x: int)
    ensures k * x == (k - 1) * x + x
  {
  }

  lemma {:induction false} WavesDrain(cfg: Config, key: string, gap: int, k: nat)
    requires Sane(cfg) && gap > 0 && 1 <= Credit(cfg, gap) <= cfg.burst
    ensures Run(cfg, false, map[], Waves(cfg, key, gap, k)) == map[key := Bucket(0, k * gap, k * gap)]
    ensures Admits(cfg, map[], Waves(cfg, key, gap, k), key) == cfg.burst + k * Credit(cfg, gap)
  {
    hide Credit, Run, Admits, Volley;
    if k == 0 {
      FirstWave(cfg, key);
    } else {
      WavesDrain(cfg, key, gap, k - 1);
      OneMore(k, gap);
      OneMore(k, Credit(cfg, gap));
      NextWave(cfg, Waves(cfg, key, gap, k - 1), key, (k - 1) * gap, gap);
    }
  }

  lemma Exchange(k: int, c: int, rate: int, gap: int)
    requires 60 * SECOND * c == rate * gap
    ensures 60 * SECOND * (k * c) == rate * (k * gap)
  {
    assert 60 * SECOND * (k * c) == k * (60 * SECOND * c);
    assert k * (rate * gap) == rate * (k * gap);
  }

  /** Beyond one burst, admissions can be worth exactly the time of the window, however long it is: for every gap that
      is worth whole tokens, and no more than a burst of them, calling after each gap. What `WindowBound` adds to that
      is the truncation of a window that begins between two refills. */
  lemma WindowReached(cfg: Config, key: string, gap: int, k: nat)
    requires Sane(cfg) && gap > 0 && 1 <= Credit(cfg, gap) <= cfg.burst
    requires 60 * SECOND * Credit(cfg, gap) == cfg.rate * gap
    ensures var es := Waves(cfg, key, gap, k);
      && Ordered(0, es) && Last(0, es) <= k * gap
      && 60 * SECOND * (Admits(cfg, map[], es, key) - cfg.burst) == cfg.rate * (k * gap)
  {
    hide Credit, Admits, Ordered, Last;
    WavesOrdered(cfg, key, gap, k);
    WavesDrain(cfg, key, gap, k);
    Exchange(k, Credit(cfg, gap), cfg.rate, gap);
  }

  // ----- what cleanup forgets -----

  /** When the last call for a key was admitted. */
  function LastAdmitted(cfg: Config, sweeping: bool, es: seq<Event>, key: string): int {
    if es == [] then 0
    else
      var n := |es| - 1;
      if es[n].Ask? && es[n].key == key && Reply(cfg, sweeping, map[], es, n) == Admit then es[n].now
      else LastAdmitted(cfg, sweeping, es[..n], key)
  }

  lemma {:induction false} UsedWhenAdmitted(cfg: Config, sweeping: bool, from: int, es: seq<Event>, key: string)
    requires Sane(cfg) && Ordered(from, es) && key in Run(cfg, sweeping, map[], es)
    ensures Run(cfg, sweeping, map[], es)[key].lastUsed == LastAdmitted(cfg, sweeping, es, key)
  {
    var n := |es| - 1;
    var m := Run(cfg, sweeping, map[], es[..n]);
    NoTimeNoCredit(cfg);
    hide Credit;
    if key in m {
      UsedWhenAdmitted(cfg, sweeping, from, es[..n], key);
    }
  }

  /** A tick forgets exactly the keys whose last admission lies further back than the time to live, and changes nothing
      about the others. */
  lemma {:induction false} ForgottenExactly(cfg: Config, from: int, es: seq<Event>, key: string, now: int)
    requires Sane(cfg) && Ordered(from, es) && key in Run(cfg, true, map[], es)
    ensures var (m, t) := (Run(cfg, true, map[], es), Run(cfg, true, map[], es + [Tick(now)]));
      && (key in t <==> now - LastAdmitted(cfg, true, es, key) <= cfg.ttl)
      && (key in t ==> t[key] == m[key])
  {
    UsedWhenAdmitted(cfg, true, from, es, key);
    var all := es + [Tick(now)];
    assert all[..|es|] == es;
  }

  // ----- Retry-After -----

  lemma {:induction false} DenialsWait(cfg: Config, sweeping: bool, from: int, m: Table, es: seq<Event>, key: string,
                                       denied: int)
    requires Sane(cfg) && AllSound(cfg, m, from) && Ordered(from, es)
    requires key in m && m[key].lastFill <= denied
    requires forall i :: 0 <= i < |es| && es[i].Ask? && es[i].key == key ==> Reply(cfg, sweeping, m, es, i) == Deny
    ensures var m' := Run(cfg, sweeping, m, es); key in m' ==> m'[key] == m[key]
  {
    hide Credit;
    if es != [] {
      var n := |es| - 1;
      forall i | 0 <= i < n && es[..n][i].Ask? && es[..n][i].key == key
        ensures Reply(cfg, sweeping, m, es[..n], i) == Deny
      {
        assert es[..n][..i] == es[..i];
        assert Reply(cfg, sweeping, m, es, i) == Deny;
      }
      DenialsWait(cfg, sweeping, from, m, es[..n], key, denied);
      RunStaysSound(cfg, sweeping, from, m, es[..n]);
      if es[n].Ask? && es[n].key == key {
        assert Reply(cfg, sweeping, m, es, n) == Deny;
      }
    }
  }

  lemma DeniedMeansEmpty(cfg: Config, m: Table, key: string, u: int, v: int)
    requires Sane(cfg) && AllSound(cfg, m, u) && u <= v
    requires !Allowed(cfg, m, key, u).1
    ensures var m1 := Allowed(cfg, m, key, u).0;
      && key in m && m1 == m && m[key].tokens == 0
      && ((v - u) / SECOND * cfg.rate >= 60 ==> Decide(cfg, m[key], v).1)
  {
    NoTimeNoCredit(cfg);
    if key in m {
      CreditMonotone(cfg, 0, u - m[key].lastFill);
      CreditMonotone(cfg, v - u, v - m[key].lastFill);
    }
  }

  /** A key denied at time u and not admitted since is admitted at v once the whole seconds from u to v earn a
      token, however often it was denied meanwhile and whether or not cleanup ran. */
  lemma RetryAfter(cfg: Config, sweeping: bool, from: int, past: seq<Event>, key: string, u: int, es: seq<Event>,
                   v: int)
    requires Sane(cfg) && Ordered(from, past) && Last(from, past) <= u
    requires var m := Run(cfg, sweeping, map[], past);
      && !Allowed(cfg, m, key, u).1
      && forall i :: 0 <= i < |es| && es[i].Ask? && es[i].key == key ==>
           Reply(cfg, sweeping, Allowed(cfg, m, key, u).0, es, i) == Deny
    requires Ordered(u, es) && Last(u, es) <= v && (v - u) / SECOND * cfg.rate >= 60
    ensures var m := Run(cfg, sweeping, Allowed(cfg, Run(cfg, sweeping, map[], past), key, u).0, es);
      Allowed(cfg, m, key, v).1
  {
    var m := Run(cfg, sweeping, map[], past);
    var m1 := Allowed(cfg, m, key, u).0;
    RunStaysSound(cfg, sweeping, from, map[], past);
    assert AllSound(cfg, m, u);
    DeniedMeansEmpty(cfg, m, key, u, v);
    DenialsWait(cfg, sweeping, u, m1, es, key, u);
    NoTimeNoCredit(cfg);
  }

  /** The 60 seconds of the Retry-After header always suffice. */
  lemma SixtySecondsSuffice(cfg: Config, u: int, v: int)
    requires Sane(cfg) && u + 60 * SECOND <= v
    ensures (v - u) / SECOND * cfg.rate >= 60
  {
    assert (v - u) / SECOND >= 60;
  }

  /** The server's defaults meet the condition; one request a minute with a burst of ten does not. */
  lemma EvictionUnderServerLimits()
    ensures RefillsBeforeEviction(Config(60, 10, 300 * SECOND))
    ensures !RefillsBeforeEviction(Config(1, 10, 300 * SECOND))
  {
    assert (300 * SECOND + 1) / SECOND == 300;
  }
}
