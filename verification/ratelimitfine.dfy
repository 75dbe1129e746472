/** The rate limiter at the grain of its locks. Allow finds or makes a bucket under the table's lock and uses it later
    under the bucket's own; in between cleanup may forget the bucket, and the call then spends from a stray one. */
module RateLimitFine {
  import opened RateLimit
  import opened RateLimitRuns

  /** A bucket made for a key. */
  datatype Cell = Cell(key: string, b: Bucket)

  /** A goroutine outside Allow, or between its two locks with the cell it found. */
  datatype Proc = Free | Holding(cell: nat)

  /** All cells ever made, and those the table still knows. */
  datatype Sys = Sys(heap: seq<Cell>, table: map<string, nat>, procs: seq<Proc>)

  datatype Move =
    | Look(now: int, i: nat, key: string)
    | Use(now: int, i: nat)
    | Sweep(now: int)

  predicate Enabled(s: Sys, e: Move) {
    match e
    case Look(_, i, _) => i < |s.procs| && s.procs[i].Free?
    case Use(_, i) => i < |s.procs| && s.procs[i].Holding? && s.procs[i].cell < |s.heap|
    case Sweep(_) => forall key <- s.table :: s.table[key] < |s.heap|
  }

  function Apply(cfg: Config, s: Sys, e: Move): Sys
    requires Enabled(s, e)
  {
    match e
    case Look(now, i, key) =>
      if key in s.table then s.(procs := s.procs[i := Holding(s.table[key])])
      else Sys(s.heap + [Cell(key, Bucket(cfg.burst, now, now))], s.table[key := |s.heap|],
               s.procs[i := Holding(|s.heap|)])
    case Use(now, i) =>
      var c := s.procs[i].cell;
      s.(heap := s.heap[c := s.heap[c].(b := Decide(cfg, s.heap[c].b, now).0)], procs := s.procs[i := Free])
    case Sweep(now) =>
      s.(table := map key | key in s.table && now - s.heap[s.table[key]].b.lastUsed <= cfg.ttl :: s.table[key])
  }

  predicate Legal(cfg: Config, s: Sys, es: seq<Move>)
    decreases |es|
  {
    es == [] || (Enabled(s, es[0]) && Legal(cfg, Apply(cfg, s, es[0]), es[1..]))
  }

  function Exec(cfg: Config, s: Sys, es: seq<Move>): Sys
    requires Legal(cfg, s, es)
    decreases |es|
  {
    if es == [] then s else Exec(cfg, Apply(cfg, s, es[0]), es[1..])
  }

  // A goroutine holds a cell of this key that the table has forgotten.
  predicate Stray(s: Sys, p: Proc, key: string) {
    p.Holding? && p.cell < |s.heap| && s.heap[p.cell].key == key && !(key in s.table && s.table[key] == p.cell)
  }

  predicate UsesKey(s: Sys, e: Move, key: string) {
    Enabled(s, e) && e.Use? && s.heap[s.procs[e.i].cell].key == key
  }

  predicate AdmitsNow(cfg: Config, s: Sys, e: Move, key: string) {
    UsesKey(s, e, key) && Decide(cfg, s.heap[s.procs[e.i].cell].b, e.now).1
  }

  /** How many calls for the key a run admits. */
  function Admitted(cfg: Config, s: Sys, es: seq<Move>, key: string): nat
    requires Legal(cfg, s, es)
    decreases |es|
  {
    if es == [] then 0
    else (if AdmitsNow(cfg, s, es[0], key) then 1 else 0) + Admitted(cfg, Apply(cfg, s, es[0]), es[1..], key)
  }

  function Sweeps(es: seq<Move>): nat {
    if es == [] then 0 else (if es[0].Sweep? then 1 else 0) + Sweeps(es[1..])
  }

  /** The moves happen between the two times, in order. */
  predicate Timed(from: int, es: seq<Move>, to: int)
    decreases |es|
  {
    if es == [] then from <= to else from <= es[0].now && Timed(es[0].now, es[1..], to)
  }

  function Start(n: nat): Sys {
    Sys([], map[], seq(n, _ => Free))
  }

  // ----- invariants -----

  ghost predicate Valid(cfg: Config, s: Sys, now: int) {
    && (forall c :: 0 <= c < |s.heap| ==> Sound(cfg, s.heap[c].b, now))
    && (forall key <- s.table :: s.table[key] < |s.heap| && s.heap[s.table[key]].key == key)
    && (forall i :: 0 <= i < |s.procs| && s.procs[i].Holding? ==> s.procs[i].cell < |s.heap|)
  }

  lemma SoundDecision(cfg: Config, b: Bucket, now: int)
    requires Sane(cfg) && Sound(cfg, b, now)
    ensures Sound(cfg, Decide(cfg, b, now).0, now)
  {
    hide Credit;
  }

  lemma StepKeepsValid(cfg: Config, s: Sys, e: Move, before: int)
    requires Sane(cfg) && Valid(cfg, s, before) && before <= e.now && Enabled(s, e)
    ensures Valid(cfg, Apply(cfg, s, e), e.now) && |Apply(cfg, s, e).procs| == |s.procs|
  {
    if e.Use? {
      var b := s.heap[s.procs[e.i].cell].b;
      assert Sound(cfg, b, before);
      SoundDecision(cfg, b, e.now);
    }
    hide Decide;
  }

  // ----- with nobody in between, the atomic limiter -----

  function View(s: Sys): Table
    requires forall key <- s.table :: s.table[key] < |s.heap|
  {
    map key | key in s.table :: s.heap[s.table[key]].b
  }

  // Looking up a key finds its bucket, or makes a full one for it, and leaves the other keys their own.
  lemma LookView(cfg: Config, s: Sys, now: int, i: nat, key: string)
    requires Valid(cfg, s, now) && i < |s.procs| && s.procs[i].Free?
    ensures var t := Apply(cfg, s, Look(now, i, key));
      && (forall k <- t.table :: t.table[k] < |t.heap| && t.heap[t.table[k]].key == k)
      && key in t.table && t.procs[i] == Holding(t.table[key])
      && View(t) == View(s)[key := Found(cfg, View(s), key, now)]
  {
    var t := Apply(cfg, s, Look(now, i, key));
    forall k <- t.table ensures t.table[k] < |t.heap| && t.heap[t.table[k]].key == k {
    }
    assert View(t) == View(s)[key := Found(cfg, View(s), key, now)];
  }

  // Using the bucket the table knows for a key decides the call, and leaves the other keys their own.
  lemma UseView(cfg: Config, t: Sys, now: int, i: nat, key: string)
    requires forall k <- t.table :: t.table[k] < |t.heap| && t.heap[t.table[k]].key == k
    requires i < |t.procs| && key in t.table && t.procs[i] == Holding(t.table[key])
    ensures Enabled(t, Use(now, i))
    ensures var u := Apply(cfg, t, Use(now, i));
      && (forall k <- u.table :: u.table[k] < |u.heap|) && u.procs == t.procs[i := Free]
      && View(u) == View(t)[key := Decide(cfg, View(t)[key], now).0]
      && (AdmitsNow(cfg, t, Use(now, i), key) <==> Decide(cfg, View(t)[key], now).1)
  {
    hide Decide;
    var u := Apply(cfg, t, Use(now, i));
    forall k | k in u.table && k != key ensures u.table[k] != t.table[key] {
      assert t.heap[t.table[k]].key == k;
    }
    assert View(u) == View(t)[key := Decide(cfg, View(t)[key], now).0];
  }

  /** A lookup and its use with nothing in between are one atomic call. */
  lemma AtomicCall(cfg: Config, s: Sys, now: int, i: nat, key: string)
    requires Valid(cfg, s, now) && i < |s.procs| && s.procs[i].Free?
    ensures var t := Apply(cfg, s, Look(now, i, key));
      && Enabled(t, Use(now, i))
      && var u := Apply(cfg, t, Use(now, i));
         && (forall k <- u.table :: u.table[k] < |u.heap|) && u.procs == s.procs
         && (View(u), AdmitsNow(cfg, t, Use(now, i), key)) == Allowed(cfg, View(s), key, now)
  {
    hide Decide;
    var t := Apply(cfg, s, Look(now, i, key));
    LookView(cfg, s, now, i, key);
    UseView(cfg, t, now, i, key);
    assert t.procs[i := Free] == s.procs;
    hide AdmitsNow, Enabled, View, Found;
    var b := Found(cfg, View(s), key, now);
    assert View(s)[key := b][key := Decide(cfg, b, now).0] == View(s)[key := Decide(cfg, b, now).0];
  }

  /** And a sweep is the atomic one. */
  lemma AtomicSweep(cfg: Config, s: Sys, now: int)
    requires Valid(cfg, s, now)
    ensures var t := Apply(cfg, s, Sweep(now));
      (forall k <- t.table :: t.table[k] < |t.heap|) && t.procs == s.procs && View(t) == Swept(cfg, View(s), now)
  {
  }

  // ----- what the table's own bucket admits -----

  ghost function Known(s: Sys, key: string): Table
    requires key in s.table ==> s.table[key] < |s.heap|
  {
    if key in s.table then map[key := s.heap[s.table[key]].b] else map[]
  }

  /** `a` admissions since `start` out of buckets the table knew: as in `Budget`, and while the key is forgotten they
      are paid for by the time since `start`. */
  ghost predicate Paid(cfg: Config, s: Sys, key: string, start: int, a: nat, now: int)
    requires key in s.table ==> s.table[key] < |s.heap|
  {
    if key in s.table then
      && Budget(cfg, Known(s, key), key, start, a, WindowSlack(cfg))
      && (a > 0 ==> start <= s.heap[s.table[key]].b.lastUsed)
    else 60 * SECOND * a <= cfg.rate * (now - start) + WindowSlack(cfg)
  }

  // A full burst is paid for by the time after which a bucket may be forgotten.
  lemma IdlePaysBurst(cfg: Config, idle: int)
    requires Sane(cfg) && RefillsBeforeEviction(cfg) && idle > cfg.ttl
    ensures 60 * SECOND * cfg.burst <= cfg.rate * idle
  {
    CreditMonotone(cfg, cfg.ttl + 1, idle);
    CreditBound(cfg, idle);
    hide Credit;
  }

  lemma ForgottenPaid(cfg: Config, b: Bucket, key: string, start: int, a: nat, now: int)
    requires Sane(cfg) && RefillsBeforeEviction(cfg) && Sound(cfg, b, now) && start <= now
    requires Budget(cfg, map[key := b], key, start, a, WindowSlack(cfg)) && (a > 0 ==> start <= b.lastUsed)
    requires now - b.lastUsed > cfg.ttl
    ensures 60 * SECOND * a <= cfg.rate * (now - start) + WindowSlack(cfg)
  {
    IdlePaysBurst(cfg, now - b.lastFill);
    hide RefillsBeforeEviction;
    Distribute(cfg.rate, now - start, 0);
    if b.lastFill < start {
      if a > 0 {
        IdlePaysBurst(cfg, now - b.lastUsed);
        Distribute(cfg.rate, now - b.lastUsed, b.lastUsed - start);
      }
    } else {
      Distribute(cfg.rate, now - b.lastFill, b.lastFill - start);
    }
  }

  // A call that uses the table's own bucket
  lemma UsePaid(cfg: Config, b: Bucket, key: string, start: int, a: nat, before: int, now: int)
    requires Sane(cfg) && Sound(cfg, b, before) && before <= now && start <= now
    requires Budget(cfg, map[key := b], key, start, a, WindowSlack(cfg)) && (a > 0 ==> start <= b.lastUsed)
    ensures var (b', ok) := Decide(cfg, b, now);
      var a' := if ok then a + 1 else a;
      Budget(cfg, map[key := b'], key, start, a', WindowSlack(cfg)) && (a' > 0 ==> start <= b'.lastUsed)
  {
    var m := map[key := b];
    BudgetStep(cfg, m, key, start, a, WindowSlack(cfg), before, now);
    hide Credit, Budget;
    assert Allowed(cfg, m, key, now).0 == map[key := Decide(cfg, b, now).0];
  }

  lemma LaterPaid(cfg: Config, s: Sys, key: string, start: int, a: nat, before: int, now: int)
    requires Sane(cfg) && Valid(cfg, s, before) && start <= before <= now && Paid(cfg, s, key, start, a, before)
    ensures Paid(cfg, s, key, start, a, now)
  {
    Distribute(cfg.rate, before - start, now - before);
  }

  lemma LookPaid(cfg: Config, s: Sys, e: Move, key: string, start: int, a: nat)
    requires Sane(cfg) && Valid(cfg, s, e.now) && start <= e.now && Enabled(s, e) && e.Look?
    requires Paid(cfg, s, key, start, a, e.now)
    ensures Paid(cfg, Apply(cfg, s, e), key, start, a, e.now)
  {
    var t := Apply(cfg, s, e);
    if key in s.table {
      assert t.heap[t.table[key]] == s.heap[s.table[key]];
      assert Known(t, key) == Known(s, key);
    }
  }

  lemma SweepPaid(cfg: Config, s: Sys, e: Move, key: string, start: int, a: nat)
    requires Sane(cfg) && RefillsBeforeEviction(cfg)
    requires Valid(cfg, s, e.now) && start <= e.now && Enabled(s, e) && e.Sweep?
    requires Paid(cfg, s, key, start, a, e.now)
    ensures Paid(cfg, Apply(cfg, s, e), key, start, a, e.now)
  {
    var t := Apply(cfg, s, e);
    hide RefillsBeforeEviction, Budget;
    if key in s.table {
      assert Known(s, key) == map[key := s.heap[s.table[key]].b];
      if key in t.table {
        assert Known(t, key) == Known(s, key);
      } else {
        ForgottenPaid(cfg, s.heap[s.table[key]].b, key, start, a, e.now);
      }
    }
  }

  lemma UseStepPaid(cfg: Config, s: Sys, e: Move, key: string, start: int, a: nat)
    requires Sane(cfg) && Valid(cfg, s, e.now) && start <= e.now && Enabled(s, e) && e.Use?
    requires Paid(cfg, s, key, start, a, e.now)
    ensures var own := AdmitsNow(cfg, s, e, key) && !Stray(s, s.procs[e.i], key);
      Paid(cfg, Apply(cfg, s, e), key, start, if own then a + 1 else a, e.now)
  {
    var t, c := Apply(cfg, s, e), s.procs[e.i].cell;
    hide Budget, Decide;
    if key in s.table {
      assert Known(s, key) == map[key := s.heap[s.table[key]].b];
      if s.table[key] == c {
        UsePaid(cfg, s.heap[c].b, key, start, a, e.now, e.now);
        assert Known(t, key) == map[key := Decide(cfg, s.heap[c].b, e.now).0];
      } else {
        assert Known(t, key) == Known(s, key);
      }
    }
  }

  // ----- stray holders -----

  function Strays(s: Sys, ps: seq<Proc>, key: string): (k: nat)
    ensures k <= |ps|
  {
    if ps == [] then 0 else (if Stray(s, ps[0], key) then 1 else 0) + Strays(s, ps[1..], key)
  }

  lemma {:induction false} FewerStrays(s: Sys, ps: seq<Proc>, t: Sys, qs: seq<Proc>, key: string)
    requires |ps| == |qs| && forall j :: 0 <= j < |ps| && Stray(t, qs[j], key) ==> Stray(s, ps[j], key)
    ensures Strays(t, qs, key) <= Strays(s, ps, key)
    ensures forall j :: 0 <= j < |ps| && Stray(s, ps[j], key) && !Stray(t, qs[j], key) ==>
      Strays(t, qs, key) < Strays(s, ps, key)
  {
    if ps != [] {
      forall j | 0 <= j < |ps| - 1 && Stray(t, qs[1..][j], key) ensures Stray(s, ps[1..][j], key) {
        assert Stray(t, qs[j + 1], key);
      }
      FewerStrays(s, ps[1..], t, qs[1..], key);
      forall j | 0 <= j < |ps| && Stray(s, ps[j], key) && !Stray(t, qs[j], key)
        ensures Strays(t, qs, key) < Strays(s, ps, key)
      {
        if j > 0 {
          assert Stray(s, ps[1..][j - 1], key) && !Stray(t, qs[1..][j - 1], key);
        }
      }
    }
  }

  lemma FreeIsNotStray(cfg: Config, s: Sys, e: Move, key: string)
    requires Enabled(s, e) && e.Use?
    ensures |Apply(cfg, s, e).procs| == |s.procs| && !Stray(Apply(cfg, s, e), Apply(cfg, s, e).procs[e.i], key)
  {
  }

  // A sweep can strand every holder; otherwise a stray holder only ever disappears, by using its cell.
  lemma StrayStep(cfg: Config, s: Sys, e: Move, key: string)
    requires Sane(cfg) && Valid(cfg, s, e.now) && Enabled(s, e)
    ensures var t := Apply(cfg, s, e);
      Strays(t, t.procs, key) + (if UsesKey(s, e, key) && Stray(s, s.procs[e.i], key) then 1 else 0)
      <= Strays(s, s.procs, key) + (if e.Sweep? then |s.procs| else 0)
  {
    var t := Apply(cfg, s, e);
    if !e.Sweep? {
      forall j | 0 <= j < |s.procs| && Stray(t, t.procs[j], key) ensures Stray(s, s.procs[j], key) {
        assert j != e.i;
      }
      hide Apply, Stray;
      FewerStrays(s, s.procs, t, t.procs, key);
      if UsesKey(s, e, key) && Stray(s, s.procs[e.i], key) {
        FreeIsNotStray(cfg, s, e, key);
      }
    }
  }

  // ----- over runs -----

  lemma MovePaid(cfg: Config, s: Sys, e: Move, key: string, start: int, a: nat, before: int) returns (a': nat)
    requires Sane(cfg) && RefillsBeforeEviction(cfg) && Valid(cfg, s, before) && start <= before <= e.now
    requires Enabled(s, e) && Paid(cfg, s, key, start, a, before)
    ensures Valid(cfg, Apply(cfg, s, e), e.now) && Paid(cfg, Apply(cfg, s, e), key, start, a', e.now)
    ensures a' == a + if AdmitsNow(cfg, s, e, key) && !Stray(s, s.procs[e.i], key) then 1 else 0
  {
    StepKeepsValid(cfg, s, e, before);
    LaterPaid(cfg, s, key, start, a, before, e.now);
    assert Valid(cfg, s, e.now);
    a' := a + if AdmitsNow(cfg, s, e, key) && !Stray(s, s.procs[e.i], key) then 1 else 0;
    hide RefillsBeforeEviction, Budget, Paid, Apply;
    match e {
      case Look(_, _, _) => LookPaid(cfg, s, e, key, start, a);
      case Use(_, _) => UseStepPaid(cfg, s, e, key, start, a);
      case Sweep(_) => SweepPaid(cfg, s, e, key, start, a);
    }
  }

  lemma MoreSweeps(n: nat, one: nat, more: nat)
    requires one <= 1
    ensures n * (one + more) == (if one == 1 then n else 0) + n * more
  {
  }

  // The admissions of a run, split into those out of the table's buckets and those out of stray ones
  lemma {:induction false} RunPaid(cfg: Config, s: Sys, es: seq<Move>, key: string, start: int, a: nat,
                                   from: int, to: int)
    returns (a': nat, strays: nat)
    requires Sane(cfg) && RefillsBeforeEviction(cfg) && Legal(cfg, s, es)
    requires Valid(cfg, s, from) && start <= from && Timed(from, es, to) && Paid(cfg, s, key, start, a, from)
    ensures var t := Exec(cfg, s, es);
      && Valid(cfg, t, to) && Paid(cfg, t, key, start, a', to)
      && a + Admitted(cfg, s, es, key) == a' + strays
      && strays + Strays(t, t.procs, key) <= Strays(s, s.procs, key) + |s.procs| * Sweeps(es)
      && |t.procs| == |s.procs| && start <= to
    decreases |es|
  {
    if es == [] {
      LaterPaid(cfg, s, key, start, a, from, to);
      a', strays := a, 0;
    } else {
      var e, t := es[0], Apply(cfg, s, es[0]);
      var b := MovePaid(cfg, s, e, key, start, a, from);
      StepKeepsValid(cfg, s, e, from);
      assert Valid(cfg, s, e.now);
      StrayStep(cfg, s, e, key);
      hide RefillsBeforeEviction, Budget, Paid, Apply, Stray;
      var later;
      a', later := RunPaid(cfg, t, es[1..], key, start, b, e.now, to);
      strays := later + if AdmitsNow(cfg, s, e, key) && Stray(s, s.procs[e.i], key) then 1 else 0;
      MoreSweeps(|s.procs|, if e.Sweep? then 1 else 0, Sweeps(es[1..]));
    }
  }

  lemma {:induction false} RunKeepsValid(cfg: Config, s: Sys, es: seq<Move>, from: int, to: int)
    requires Sane(cfg) && Legal(cfg, s, es) && Valid(cfg, s, from) && Timed(from, es, to)
    ensures Valid(cfg, Exec(cfg, s, es), to) && |Exec(cfg, s, es).procs| == |s.procs|
    decreases |es|
  {
    if es != [] {
      StepKeepsValid(cfg, s, es[0], from);
      RunKeepsValid(cfg, Apply(cfg, s, es[0]), es[1..], es[0].now, to);
    }
  }

  lemma PaidInTotal(cfg: Config, s: Sys, key: string, start: int, a: nat, now: int)
    requires Sane(cfg) && Valid(cfg, s, now) && start <= now && Paid(cfg, s, key, start, a, now)
    ensures 60 * SECOND * (a - cfg.burst) <= cfg.rate * (now - start) + WindowSlack(cfg)
  {
    if key in s.table {
      SpendBudget(cfg, Known(s, key), key, start, a, WindowSlack(cfg), now);
    }
  }

  lemma AddStrays(rate: int, d: int, burst: int, a: nat, strays: nat, n: nat, sweeps: nat)
    requires rate >= 1 && 60 * SECOND * (a - burst) <= rate * d + (59 + rate) * SECOND
    requires strays <= n + n * sweeps
    ensures 60 * SECOND * (a + strays - burst - n * (sweeps + 1)) <= rate * (d + SECOND) + 59 * SECOND
  {
    assert n * (sweeps + 1) == n + n * sweeps;
    Distribute(rate, d, SECOND);
  }

  /** The bound on a window, for n goroutines interleaving at the grain of the locks, with cleanup running: beyond what
      an atomic limiter admits there is at most one admission per goroutine and cleanup, out of forgotten buckets. */
  lemma FineWindowBound(cfg: Config, n: nat, from: int, past: seq<Move>, start: int, window: seq<Move>, end: int,
                        key: string)
    requires Sane(cfg) && RefillsBeforeEviction(cfg)
    requires Legal(cfg, Start(n), past) && Timed(from, past, start)
    requires Legal(cfg, Exec(cfg, Start(n), past), window) && Timed(start, window, end)
    ensures var a := Admitted(cfg, Exec(cfg, Start(n), past), window, key);
      60 * SECOND * (a - cfg.burst - n * (Sweeps(window) + 1)) <= cfg.rate * (end - start + SECOND) + 59 * SECOND
  {
    RunKeepsValid(cfg, Start(n), past, from, start);
    var s := Exec(cfg, Start(n), past);
    var a', strays := RunPaid(cfg, s, window, key, start, 0, start, end);
    PaidInTotal(cfg, Exec(cfg, s, window), key, start, a', end);
    hide *;
    AddStrays(cfg.rate, end - start, cfg.burst, a', strays, n, Sweeps(window));
  }

  // ----- the bound is reached -----

  /** Some run goes from s to t between these times, admits `a` calls for the key and sweeps `c` times. */
  ghost predicate Goes(cfg: Config, key: string, s: Sys, from: int, t: Sys, to: int, a: nat, c: nat) {
    exists es :: Legal(cfg, s, es) && Exec(cfg, s, es) == t && Timed(from, es, to)
      && Admitted(cfg, s, es, key) == a && Sweeps(es) == c
  }

  lemma {:induction false} Extend(cfg: Config, key: string, s: Sys, from: int, es: seq<Move>, to: int, e: Move)
    requires Legal(cfg, s, es) && Timed(from, es, to) && Enabled(Exec(cfg, s, es), e) && to <= e.now
    ensures Legal(cfg, s, es + [e]) && Exec(cfg, s, es + [e]) == Apply(cfg, Exec(cfg, s, es), e)
    ensures Timed(from, es + [e], e.now) && Sweeps(es + [e]) == Sweeps(es) + if e.Sweep? then 1 else 0
    ensures Admitted(cfg, s, es + [e], key)
      == Admitted(cfg, s, es, key) + if AdmitsNow(cfg, Exec(cfg, s, es), e, key) then 1 else 0
    decreases |es|
  {
    hide AdmitsNow;
    if es == [] {
      assert es + [e] == [e] && [e][1..] == [];
      assert Legal(cfg, Apply(cfg, s, e), []);
    } else {
      assert (es + [e])[1..] == es[1..] + [e];
      Extend(cfg, key, Apply(cfg, s, es[0]), es[0].now, es[1..], to, e);
    }
  }

  lemma Next(cfg: Config, key: string, s: Sys, from: int, t: Sys, to: int, a: nat, c: nat, e: Move) returns (u: Sys)
    requires Goes(cfg, key, s, from, t, to, a, c) && Enabled(t, e) && to <= e.now
    ensures u == Apply(cfg, t, e)
    ensures Goes(cfg, key, s, from, u, e.now,
      a + (if AdmitsNow(cfg, t, e, key) then 1 else 0), c + (if e.Sweep? then 1 else 0))
  {
    var es :| Legal(cfg, s, es) && Exec(cfg, s, es) == t && Timed(from, es, to)
      && Admitted(cfg, s, es, key) == a && Sweeps(es) == c;
    Extend(cfg, key, s, from, es, to, e);
    u := Apply(cfg, t, e);
  }

  /** Every goroutine holds cell h, which the table has forgotten and which is worth a full burst now. */
  ghost predicate AllStray(cfg: Config, s: Sys, key: string, h: nat, now: int) {
    && s.table == map[] && h < |s.heap| && s.heap[h].key == key
    && Sound(cfg, s.heap[h].b, now) && Refilled(cfg, s.heap[h].b, now).tokens == cfg.burst
    && forall i :: 0 <= i < |s.procs| ==> s.procs[i] == Holding(h)
  }

  /** Nobody is between the locks, and the table knows cell g alone, filled at this moment and with k tokens left. */
  ghost predicate AllFree(s: Sys, key: string, g: nat, k: int, now: int) {
    && s.table == map[key := g] && g < |s.heap| && s.heap[g] == Cell(key, Bucket(k, now, now))
    && forall i :: 0 <= i < |s.procs| ==> s.procs[i].Free?
  }

  // Goroutines i, i + 1, ... find the cell the table knows.
  lemma {:induction false} LookAll(cfg: Config, key: string, s: Sys, from: int, t: Sys, now: int, a: nat, c: nat,
                                   g: nat, i: nat)
    returns (u: Sys)
    requires Goes(cfg, key, s, from, t, now, a, c) && i <= |t.procs| && t.table == map[key := g]
    requires forall j :: 0 <= j < |t.procs| ==> t.procs[j] == if j < i then Holding(g) else Free
    ensures Goes(cfg, key, s, from, u, now, a, c) && u.heap == t.heap && u.table == t.table
    ensures |u.procs| == |t.procs| && forall j :: 0 <= j < |u.procs| ==> u.procs[j] == Holding(g)
    decreases |t.procs| - i
  {
    hide Goes;
    u := t;
    if i < |t.procs| {
      u := Next(cfg, key, s, from, u, now, a, c, Look(now, i, key));
      u := LookAll(cfg, key, s, from, u, now, a, c, g, i + 1);
    }
  }

  // Goroutines i, i + 1, ... spend from the forgotten cell.
  lemma {:induction false} UseAll(cfg: Config, key: string, s: Sys, from: int, t: Sys, now: int, a: nat, c: nat,
                                  h: nat, i: nat)
    returns (u: Sys)
    requires Sane(cfg) && Goes(cfg, key, s, from, t, now, a, c) && i <= |t.procs| <= cfg.burst
    requires t.table == map[] && h < |t.heap| && t.heap[h].key == key
    requires Sound(cfg, t.heap[h].b, now) && Refilled(cfg, t.heap[h].b, now).tokens == cfg.burst - i
    requires forall j :: 0 <= j < |t.procs| ==> t.procs[j] == if j < i then Free else Holding(h)
    ensures Goes(cfg, key, s, from, u, now, a + |t.procs| - i, c) && u.table == map[]
    ensures |u.procs| == |t.procs| && forall j :: 0 <= j < |u.procs| ==> u.procs[j].Free?
    decreases |t.procs| - i
  {
    hide Goes;
    u := t;
    if i < |t.procs| {
      SameInstant(cfg, t.heap[h].b, now);
      hide Decide, Refilled;
      u := Next(cfg, key, s, from, u, now, a, c, Use(now, i));
      u := UseAll(cfg, key, s, from, u, now, a + 1, c, h, i + 1);
    }
  }

  // Goroutine 0 spends what is left in the cell the table knows.
  lemma {:induction false} SpendAll(cfg: Config, key: string, s: Sys, from: int, t: Sys, now: int, a: nat, c: nat,
                                    g: nat, k: nat)
    returns (u: Sys)
    requires Goes(cfg, key, s, from, t, now, a, c) && t.procs != [] && AllFree(t, key, g, k, now)
    ensures Goes(cfg, key, s, from, u, now, a + k, c) && AllFree(u, key, g, 0, now) && |u.procs| == |t.procs|
    decreases k
  {
    hide Goes;
    u := t;
    if k > 0 {
      NoTimeNoCredit(cfg);
      hide Credit;
      u := Next(cfg, key, s, from, u, now, a, c, Look(now, 0, key));
      u := Next(cfg, key, s, from, u, now, a, c, Use(now, 0));
      u := SpendAll(cfg, key, s, from, u, now, a + 1, c, g, k - 1);
    }
  }

  // With every goroutine stray: all of them spend, then a whole burst goes out of the bucket made next.
  lemma StrayRound(cfg: Config, key: string, s: Sys, from: int, t: Sys, now: int, a: nat, c: nat, h: nat)
    returns (u: Sys, g: nat)
    requires Sane(cfg) && Goes(cfg, key, s, from, t, now, a, c) && AllStray(cfg, t, key, h, now)
    requires 1 <= |t.procs| <= cfg.burst
    ensures Goes(cfg, key, s, from, u, now, a + |t.procs| + cfg.burst, c)
    ensures AllFree(u, key, g, 0, now) && |u.procs| == |t.procs|
  {
    hide Goes;
    NoTimeNoCredit(cfg);
    var n := |t.procs|;
    u := UseAll(cfg, key, s, from, t, now, a, c, h, 0);
    g := |u.heap|;
    hide Credit;
    u := Next(cfg, key, s, from, u, now, a + n, c, Look(now, 0, key));
    u := Next(cfg, key, s, from, u, now, a + n, c, Use(now, 0));
    u := SpendAll(cfg, key, s, from, u, now, a + n + 1, c, g, cfg.burst - 1);
  }

  // All goroutines find the drained bucket; cleanup forgets it once it has been idle, and full again, for long enough.
  lemma StrandAll(cfg: Config, key: string, s: Sys, from: int, t: Sys, now: int, a: nat, c: nat, g: nat)
    returns (u: Sys)
    requires Sane(cfg) && RefillsBeforeEviction(cfg)
    requires Goes(cfg, key, s, from, t, now, a, c) && AllFree(t, key, g, 0, now)
    ensures Goes(cfg, key, s, from, u, now + cfg.ttl + 1, a, c + 1)
    ensures AllStray(cfg, u, key, g, now + cfg.ttl + 1) && |u.procs| == |t.procs|
  {
    hide Goes;
    var later := now + cfg.ttl + 1;
    u := LookAll(cfg, key, s, from, t, now, a, c, g, 0);
    u := Next(cfg, key, s, from, u, now, a, c, Sweep(later));
    assert later - now == cfg.ttl + 1;
    hide Credit;
  }

  lemma {:induction false} Rounds(cfg: Config, key: string, s: Sys, from: int, t: Sys, now: int, a: nat, c: nat,
                                  h: nat, more: nat)
    returns (u: Sys)
    requires Sane(cfg) && RefillsBeforeEviction(cfg) && 1 <= |t.procs| <= cfg.burst
    requires Goes(cfg, key, s, from, t, now, a, c) && AllStray(cfg, t, key, h, now)
    ensures Goes(cfg, key, s, from, u, now + more * (cfg.ttl + 1), a + (more + 1) * (|t.procs| + cfg.burst), c + more)
    decreases more
  {
    hide Goes, AllStray, AllFree, RefillsBeforeEviction;
    var n := |t.procs|;
    var g;
    u, g := StrayRound(cfg, key, s, from, t, now, a, c, h);
    if more > 0 {
      u := StrandAll(cfg, key, s, from, u, now, a + n + cfg.burst, c, g);
      u := Rounds(cfg, key, s, from, u, now + cfg.ttl + 1, a + n + cfg.burst, c + 1, g, more - 1);
      assert more * (cfg.ttl + 1) == (cfg.ttl + 1) + (more - 1) * (cfg.ttl + 1);
      assert (more + 1) * (n + cfg.burst) == (n + cfg.burst) + more * (n + cfg.burst);
    }
  }

  lemma GoesNowhere(cfg: Config, key: string, s: Sys, now: int)
    ensures Goes(cfg, key, s, now, s, now, 0, 0)
  {
    assert Legal(cfg, s, []) && Exec(cfg, s, []) == s && Timed(now, [], now) && Admitted(cfg, s, [], key) == 0;
    assert Sweeps([]) == 0;
  }

  lemma MultiplyOut(c: nat, n: nat, burst: int)
    ensures (c + 1) * (n + burst) == burst + n * (c + 1) + c * burst
  {
  }

  lemma FirstStrand(cfg: Config, key: string, n: nat) returns (u: Sys)
    requires Sane(cfg) && n >= 1
    ensures Goes(cfg, key, Start(n), 0, u, cfg.ttl + 1, 0, 1)
    ensures AllStray(cfg, u, key, 0, cfg.ttl + 1) && |u.procs| == n
  {
    var s := Start(n);
    GoesNowhere(cfg, key, s, 0);
    hide Goes;
    u := Next(cfg, key, s, 0, s, 0, 0, 0, Look(0, 0, key));
    u := LookAll(cfg, key, s, 0, u, 0, 0, 0, 0, 1);
    u := Next(cfg, key, s, 0, u, 0, 0, 0, Sweep(cfg.ttl + 1));
    CreditMonotone(cfg, 0, cfg.ttl + 1);
    hide Credit;
  }

  /** The window lies in a run of n goroutines. */
  ghost predicate InRun(cfg: Config, n: nat, past: seq<Move>, start: int, window: seq<Move>, end: int) {
    && Legal(cfg, Start(n), past) && Timed(0, past, start)
    && Legal(cfg, Exec(cfg, Start(n), past), window) && Timed(start, window, end)
  }

  /** Each cleanup can strand all n goroutines and each of them can then be admitted on top of a burst: for every number
      c of cleanups there is a window of c times the time to live with n extra admissions for each of them and for the
      one before, as many as `FineWindowBound` allows, and c + 1 bursts. */
  lemma FineWindowReached(cfg: Config, n: nat, key: string, c: nat)
    requires Sane(cfg) && RefillsBeforeEviction(cfg) && 1 <= n <= cfg.burst
    ensures exists past, start, window, end {:trigger InRun(cfg, n, past, start, window, end)} ::
      && InRun(cfg, n, past, start, window, end)
      && Sweeps(window) == c && end - start == c * (cfg.ttl + 1)
      && Admitted(cfg, Exec(cfg, Start(n), past), window, key) == cfg.burst + n * (c + 1) + c * cfg.burst
  {
    hide AllStray, RefillsBeforeEviction, Legal, Exec, Timed, Admitted;
    var start, end := cfg.ttl + 1, cfg.ttl + 1 + c * (cfg.ttl + 1);
    var t := FirstStrand(cfg, key, n);
    GoesNowhere(cfg, key, t, start);
    var u := Rounds(cfg, key, t, start, t, start, 0, 0, 0, c);
    var past :| Legal(cfg, Start(n), past) && Exec(cfg, Start(n), past) == t && Timed(0, past, start);
    var window :| Legal(cfg, t, window) && Exec(cfg, t, window) == u && Timed(start, window, end)
      && Admitted(cfg, t, window, key) == (c + 1) * (n + cfg.burst) && Sweeps(window) == c;
    MultiplyOut(c, n, cfg.burst);
    assert InRun(cfg, n, past, start, window, end);
  }
}
